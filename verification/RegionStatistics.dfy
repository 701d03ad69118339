/** What one region proposal says about a set of pixels (src/detection/post_process_utils.cpp, ComponentInfo and RegionProposal). */
module RegionStatistics {
  import opened Basics
  import opened PixelGrid
  import Vectors

  /** The running statistics of one root label. */
  datatype ComponentInfo = ComponentInfo(maxScore: real, sumScore: real, pixelCount: nat,
                                         minX: nat, minY: nat, maxX: nat, maxY: nat)

  datatype Rect = Rect(x: nat, y: nat, width: nat, height: nat)

  datatype RegionProposal = RegionProposal(bbox: Rect, maxAnomalyScore: real, meanAnomalyScore: real, pixelArea: nat)

  /** The largest value of the unsigned 64-bit size type, with which the minima start. */
  const SIZE_MAX: nat := 0xFFFF_FFFF_FFFF_FFFF

  const EMPTY_INFO := ComponentInfo(0.0, 0.0, 0, SIZE_MAX, SIZE_MAX, 0, 0)

  function Include(info: ComponentInfo, x: nat, y: nat, score: real): ComponentInfo {
    ComponentInfo(if info.maxScore < score then score else info.maxScore, info.sumScore + score, info.pixelCount + 1,
                  Min(info.minX, x), Min(info.minY, y), Max(info.maxX, x), Max(info.maxY, y))
  }

  // ---- What the statistics mean ----

  ghost function SumOver(scores: seq<real>, s: set<nat>, n: nat): real
    requires n <= |scores|
  {
    if n == 0 then 0.0 else SumOver(scores, s, n - 1) + (if n - 1 in s then scores[n - 1] else 0.0)
  }

  lemma {:induction false} SumOverAgrees(scores: seq<real>, s: set<nat>, t: set<nat>, n: nat)
    requires n <= |scores| && forall i: nat :: i < n ==> (i in s <==> i in t)
    ensures SumOver(scores, s, n) == SumOver(scores, t, n)
  {
    if n > 0 {
      SumOverAgrees(scores, s, t, n - 1);
    }
  }

  /** The maximum starts at zero, so it is the largest score or zero, whichever is larger. */
  ghost predicate IsMaxScore(scores: seq<real>, s: set<nat>, m: real) {
    && m >= 0.0
    && (forall p :: p in s && p < |scores| ==> scores[p] <= m)
    && (m == 0.0 || exists p :: p in s && p < |scores| && scores[p] == m)
  }

  datatype Axis = Horizontal | Vertical

  function Along(w: nat, axis: Axis, i: nat): nat
    requires w > 0
  {
    if axis.Horizontal? then Column(w, i) else Row(w, i)
  }

  /** The pixels of s lie between lo and hi on an axis, and both ends are met. */
  ghost predicate Spans(w: nat, axis: Axis, s: set<nat>, lo: nat, hi: nat)
    requires w > 0
  {
    && (forall p :: p in s ==> lo <= Along(w, axis, p) <= hi)
    && (exists p :: p in s && Along(w, axis, p) == lo)
    && (exists p :: p in s && Along(w, axis, p) == hi)
  }

  /** The statistics are those of the pixel set s, all of whose pixels are among the first n. */
  ghost predicate Summarises(info: ComponentInfo, s: set<nat>, scores: seq<real>, w: nat, n: nat) {
    && w > 0 && n <= |scores|
    && (forall p :: p in s ==> p < n)
    && info.pixelCount == |s|
    && info.sumScore == SumOver(scores, s, n)
    && IsMaxScore(scores, s, info.maxScore)
    && (if s == {} then info == EMPTY_INFO
        else Spans(w, Horizontal, s, info.minX, info.maxX) && Spans(w, Vertical, s, info.minY, info.maxY))
  }

  ghost predicate IsMeanScore(scores: seq<real>, s: set<nat>, m: real) {
    m * |s| as real == SumOver(scores, s, |scores|)
  }

  /** The region has the exact area and mean of s, and its bounding box is the tightest. */
  ghost predicate Describes(region: RegionProposal, s: set<nat>, scores: seq<real>, w: nat) {
    && w > 0 && s != {}
    && region.pixelArea == |s|
    && IsMeanScore(scores, s, region.meanAnomalyScore)
    && IsMaxScore(scores, s, region.maxAnomalyScore)
    && region.bbox.width > 0 && region.bbox.height > 0
    && Spans(w, Horizontal, s, region.bbox.x, region.bbox.x + region.bbox.width - 1)
    && Spans(w, Vertical, s, region.bbox.y, region.bbox.y + region.bbox.height - 1)
  }

  // ---- One more pixel ----

  lemma SpanGrows(w: nat, axis: Axis, s: set<nat>, lo: nat, hi: nat, n: nat)
    requires w > 0 && (if s == {} then hi == 0 && Along(w, axis, n) <= lo else Spans(w, axis, s, lo, hi))
    ensures Spans(w, axis, s + {n}, Min(lo, Along(w, axis, n)), Max(hi, Along(w, axis, n)))
  {
    var t, at := s + {n}, Along(w, axis, n);
    assert n in t;
    if s != {} {
      var p :| p in s && Along(w, axis, p) == lo;
      var q :| q in s && Along(w, axis, q) == hi;
      assert p in t && q in t;
    }
  }

  lemma MaxGrows(scores: seq<real>, s: set<nat>, m: real, n: nat)
    requires IsMaxScore(scores, s, m) && n < |scores|
    ensures IsMaxScore(scores, s + {n}, if m < scores[n] then scores[n] else m)
  {
    var t := s + {n};
    assert n in t;
    if m != 0.0 {
      var p :| p in s && p < |scores| && scores[p] == m;
      assert p in t;
    }
  }

  lemma SumGrows(scores: seq<real>, s: set<nat>, n: nat)
    requires n < |scores|
    ensures SumOver(scores, s + {n}, n + 1) == SumOver(scores, s, n) + scores[n]
  {
    SumOverAgrees(scores, s, s + {n}, n);
  }

  lemma PixelIncluded(info: ComponentInfo, s: set<nat>, scores: seq<real>, w: nat, n: nat)
    requires Summarises(info, s, scores, w, n) && n < |scores| && Column(w, n) <= SIZE_MAX && Row(w, n) <= SIZE_MAX
    ensures Summarises(Include(info, Column(w, n), Row(w, n), scores[n]), s + {n}, scores, w, n + 1)
  {
    var grown, more := Include(info, Column(w, n), Row(w, n), scores[n]), s + {n};
    SpanGrows(w, Horizontal, s, info.minX, info.maxX, n);
    SpanGrows(w, Vertical, s, info.minY, info.maxY, n);
    assert Spans(w, Horizontal, more, grown.minX, grown.maxX) && Spans(w, Vertical, more, grown.minY, grown.maxY);
    MaxGrows(scores, s, info.maxScore, n);
    SumGrows(scores, s, n);
  }

  lemma PixelSkipped(info: ComponentInfo, s: set<nat>, scores: seq<real>, w: nat, n: nat)
    requires Summarises(info, s, scores, w, n) && n < |scores|
    ensures Summarises(info, s, scores, w, n + 1)
  {
  }

  function ProposalOf(info: ComponentInfo): RegionProposal
    requires info.pixelCount > 0 && info.minX <= info.maxX && info.minY <= info.maxY
  {
    RegionProposal(Rect(info.minX, info.minY, info.maxX - info.minX + 1, info.maxY - info.minY + 1),
                   info.maxScore, info.sumScore / info.pixelCount as real, info.pixelCount)
  }

  lemma SummaryIsOrdered(info: ComponentInfo, s: set<nat>, scores: seq<real>, w: nat)
    requires Summarises(info, s, scores, w, |scores|) && s != {}
    ensures info.pixelCount > 0 && info.minX <= info.maxX && info.minY <= info.maxY
  {
    var p :| p in s;
    assert info.minX <= Along(w, Horizontal, p) && info.minY <= Along(w, Vertical, p);
  }

  lemma ProposalDescribes(info: ComponentInfo, s: set<nat>, scores: seq<real>, w: nat)
    requires Summarises(info, s, scores, w, |scores|) && s != {}
    ensures info.pixelCount > 0 && info.minX <= info.maxX && info.minY <= info.maxY
    ensures Describes(ProposalOf(info), s, scores, w)
  {
    SummaryIsOrdered(info, s, scores, w);
    QuotientIsMean(scores, s, info.sumScore);
    BoxSpans(info.minX, info.maxX);
    BoxSpans(info.minY, info.maxY);
  }

  lemma QuotientIsMean(scores: seq<real>, s: set<nat>, sum: real)
    requires s != {} && sum == SumOver(scores, s, |scores|)
    ensures IsMeanScore(scores, s, sum / |s| as real)
  {
    Vectors.QuotientTimes(sum, |s| as real);
  }

  lemma BoxSpans(lo: nat, hi: nat)
    requires lo <= hi
    ensures lo + (hi - lo + 1) - 1 == hi
  {
  }

  // ---- Consequences of a description ----

  /** Repeated addition: `times` copies of a. */
  ghost function Copies(a: real, times: nat): real {
    if times == 0 then 0.0 else Copies(a, times - 1) + a
  }

  lemma {:induction false} CopiesIsProduct(a: real, times: nat)
    ensures Copies(a, times) == a * times as real
  {
    if times > 0 {
      CopiesIsProduct(a, times - 1);
    }
  }

  ghost function FirstOf(s: set<nat>, n: nat): set<nat> {
    set p | p in s && p < n
  }

  lemma {:induction false} SumBetween(scores: seq<real>, s: set<nat>, n: nat, lo: real, hi: real)
    requires n <= |scores| && forall p :: p in s && p < n ==> lo < scores[p] <= hi
    ensures Copies(lo, |FirstOf(s, n)|) <= SumOver(scores, s, n) <= Copies(hi, |FirstOf(s, n)|)
    ensures |FirstOf(s, n)| > 0 ==> Copies(lo, |FirstOf(s, n)|) < SumOver(scores, s, n)
  {
    if n == 0 {
      assert FirstOf(s, n) == {};
    } else {
      SumBetween(scores, s, n - 1, lo, hi);
      var before := FirstOf(s, n - 1);
      if n - 1 in s {
        assert FirstOf(s, n) == before + {n - 1};
        assert |FirstOf(s, n)| == |before| + 1;
      } else {
        assert FirstOf(s, n) == before;
      }
    }
  }

  lemma MeanBetween(mean: real, area: real, sum: real, lo: real, hi: real)
    requires area > 0.0 && mean * area == sum && lo * area < sum <= hi * area
    ensures lo < mean <= hi
  {
    assert mean <= lo ==> mean * area <= lo * area;
    assert mean > hi ==> mean * area > hi * area;
  }

  lemma MaxBetween(scores: seq<real>, s: set<nat>, m: real, lo: real, hi: real)
    requires IsMaxScore(scores, s, m) && s != {} && 0.0 <= lo
    requires forall p :: p in s ==> p < |scores| && lo < scores[p] <= hi
    ensures lo < m <= hi
  {
    var p :| p in s;
  }

  lemma AverageBetween(scores: seq<real>, s: set<nat>, mean: real, lo: real, hi: real)
    requires s != {} && IsMeanScore(scores, s, mean)
    requires forall p :: p in s ==> p < |scores| && lo < scores[p] <= hi
    ensures lo < mean <= hi
  {
    SumBetween(scores, s, |scores|, lo, hi);
    assert FirstOf(s, |scores|) == s;
    CopiesIsProduct(lo, |s|);
    CopiesIsProduct(hi, |s|);
    MeanBetween(mean, |s| as real, SumOver(scores, s, |scores|), lo, hi);
  }

  // ---- Listing the regions by score ----

  ghost predicate ByScore(regions: seq<RegionProposal>) {
    forall i, j :: 0 <= i < j < |regions| ==> regions[i].maxAnomalyScore >= regions[j].maxAnomalyScore
  }

  function InsertByScore(region: RegionProposal, regions: seq<RegionProposal>): (listed: seq<RegionProposal>)
    requires ByScore(regions)
    ensures ByScore(listed) && multiset(listed) == multiset{region} + multiset(regions)
  {
    if regions == [] || region.maxAnomalyScore >= regions[0].maxAnomalyScore then
      [region] + regions
    else
      var tail := InsertByScore(region, regions[1..]);
      PrependBest(regions[0], region, regions[1..], tail);
      assert regions == [regions[0]] + regions[1..];
      [regions[0]] + tail
  }

  lemma PrependBest(best: RegionProposal, region: RegionProposal, rest: seq<RegionProposal>, tail: seq<RegionProposal>)
    requires ByScore([best] + rest) && ByScore(tail) && multiset(tail) == multiset{region} + multiset(rest)
    requires region.maxAnomalyScore <= best.maxAnomalyScore
    ensures ByScore([best] + tail)
  {
    assert forall k :: 0 <= k < |rest| ==> ([best] + rest)[0] == best && ([best] + rest)[k + 1] == rest[k];
    forall j | 0 <= j < |tail|
      ensures best.maxAnomalyScore >= tail[j].maxAnomalyScore
    {
      assert tail[j] in multiset(tail);
      if tail[j] != region {
        assert tail[j] in multiset(rest);
        var k :| 0 <= k < |rest| && rest[k] == tail[j];
      }
    }
  }

  /** The library sort: some arrangement of the regions by descending maximum score. */
  function SortByScore(regions: seq<RegionProposal>): (listed: seq<RegionProposal>)
    ensures ByScore(listed) && multiset(listed) == multiset(regions)
  {
    if regions == [] then
      []
    else
      assert regions == [regions[0]] + regions[1..];
      InsertByScore(regions[0], SortByScore(regions[1..]))
  }
}
