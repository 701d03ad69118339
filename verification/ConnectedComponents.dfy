/** Two-pass connected-component labelling (src/detection/post_process_utils.cpp, ConnectedComponents). */
module ConnectedComponents {
  import opened PixelGrid
  import opened LabelForest
  import opened RegionStatistics

  // ---- First pass: provisional labels ----

  /** The first n pixels are labelled: foreground with a known label, everything else with -1. */
  ghost predicate LabelsOk(binary: seq<real>, labels: seq<int>, parent: seq<nat>, n: nat) {
    && |labels| == |binary| && n <= |binary| && Descending(parent)
    && (forall i :: 0 <= i < n && Foreground(binary, i) ==> 0 <= labels[i] < |parent|)
    && (forall i :: 0 <= i < |binary| && (i >= n || !Foreground(binary, i)) ==> labels[i] == -1)
  }

  /** The root label of every pixel; -1 where there is none. */
  ghost function Roots(labels: seq<int>, parent: seq<nat>): (roots: seq<int>)
    requires Descending(parent)
    ensures |roots| == |labels|
    ensures forall i :: 0 <= i < |labels| ==> roots[i] == if 0 <= labels[i] < |parent| then Root(parent, labels[i]) else -1
  {
    seq(|labels|, i requires 0 <= i < |labels| => if 0 <= labels[i] < |parent| then Root(parent, labels[i]) else -1)
  }

  ghost predicate Labelled(binary: seq<real>, w: nat, labels: seq<int>, parent: seq<nat>, n: nat) {
    w > 0 && LabelsOk(binary, labels, parent, n) && Separates(binary, w, n, Roots(labels, parent))
  }

  /** Pixel x is touched by pixel n exactly when it shares the root of the labelled pixel above or to the left. */
  lemma TouchedBy(binary: seq<real>, w: nat, y: nat, x: nat, n: nat, roots: seq<int>, k: nat)
    requires w > 0 && x < w && n == y * w + x && k < n < |binary| == |roots|
    ensures y > 0 ==> n >= w
    ensures Touched(binary, w, n, roots, k) <==>
            || (y > 0 && Foreground(binary, n - w) && roots[n - w] == roots[k])
            || (x > 0 && Foreground(binary, n - 1) && roots[n - 1] == roots[k])
  {
    IndexOf(w, y, x);
    if y > 0 {
      MultipleGap(w, 0, y);
    }
    assert y == 0 ==> n < w;
    forall m: nat | m < n
      ensures Adjacent(w, m, n) <==> (y > 0 && m == n - w) || (x > 0 && m == n - 1)
    {
      EarlierNeighbours(w, m, n);
    }
    if y > 0 {
      var up: nat := n - w;
      assert Adjacent(w, up, n);
    }
    if x > 0 {
      var left: nat := n - 1;
      assert Adjacent(w, left, n);
    }
  }

  /** Pixel n touches exactly the pixels whose root is ra or rb; -1 stands for no root. */
  ghost predicate TouchesRoots(binary: seq<real>, w: nat, n: nat, roots: seq<int>, ra: int, rb: int)
    requires w > 0 && n < |binary| == |roots|
  {
    forall k: nat :: k < n && Foreground(binary, k) ==> (Touched(binary, w, n, roots, k) <==> roots[k] == ra || roots[k] == rb)
  }

  /** All touched roots, and pixel n, now have root `low`; the others keep theirs. */
  ghost predicate MergedInto(binary: seq<real>, n: nat, before: seq<int>, after: seq<int>, ra: int, rb: int, low: int)
    requires n < |binary| == |before| == |after|
  {
    && after[n] == low
    && forall k: nat :: k < n && Foreground(binary, k) ==>
         if before[k] == ra || before[k] == rb then after[k] == low else after[k] == before[k] && before[k] != low
  }

  lemma MergedSeparates(binary: seq<real>, w: nat, n: nat, before: seq<int>, after: seq<int>, ra: int, rb: int, low: int)
    requires w > 0 && Separates(binary, w, n, before) && n < |binary| == |after| && Foreground(binary, n)
    requires TouchesRoots(binary, w, n, before, ra, rb) && MergedInto(binary, n, before, after, ra, rb, low)
    ensures Separates(binary, w, n + 1, after)
  {
    assert Merges(binary, w, n, before, after);
    MergeKeepsSeparation(binary, w, n, before, after);
  }

  method LabelFresh(binary: seq<real>, w: nat, n: nat, labels: array<int>, forest: Forest)
    requires n < |binary| && Foreground(binary, n) && Labelled(binary, w, labels[..], forest.parent, n)
    requires TouchesRoots(binary, w, n, Roots(labels[..], forest.parent), -1, -1)
    modifies labels, forest
    ensures Labelled(binary, w, labels[..], forest.parent, n + 1)
  {
    ghost var before := Roots(labels[..], forest.parent);
    var added := forest.AddLabel();
    labels[n] := added;
    MergedSeparates(binary, w, n, before, Roots(labels[..], forest.parent), -1, -1, added);
  }

  method LabelLike(binary: seq<real>, w: nat, n: nat, labels: array<int>, forest: Forest, source: nat)
    requires n < |binary| && Foreground(binary, n) && Labelled(binary, w, labels[..], forest.parent, n)
    requires source < |forest.parent| && TouchesRoots(binary, w, n, Roots(labels[..], forest.parent), Root(forest.parent, source), -1)
    modifies labels
    ensures Labelled(binary, w, labels[..], forest.parent, n + 1)
  {
    ghost var before := Roots(labels[..], forest.parent);
    labels[n] := source;
    MergedSeparates(binary, w, n, before, Roots(labels[..], forest.parent), Root(forest.parent, source), -1, Root(forest.parent, source));
  }

  method LabelJoining(binary: seq<real>, w: nat, n: nat, labels: array<int>, forest: Forest, up: nat, left: nat)
    requires n < |binary| && Foreground(binary, n) && Labelled(binary, w, labels[..], forest.parent, n)
    requires up < |forest.parent| && left < |forest.parent|
    requires TouchesRoots(binary, w, n, Roots(labels[..], forest.parent), Root(forest.parent, up), Root(forest.parent, left))
    modifies labels, forest
    ensures Labelled(binary, w, labels[..], forest.parent, n + 1)
  {
    ghost var before := Roots(labels[..], forest.parent);
    ghost var ra, rb := Root(forest.parent, up), Root(forest.parent, left);
    var low := forest.Join(up, left);
    labels[n] := low;
    MergedSeparates(binary, w, n, before, Roots(labels[..], forest.parent), ra, rb, low);
  }

  /** The root of a neighbour that carries a label. */
  ghost function RootOr(parent: seq<nat>, l: int): int
    requires Descending(parent) && l < |parent|
  {
    if l >= 0 then Root(parent, l) else -1
  }

  lemma NeighbourRootsAreTouched(binary: seq<real>, w: nat, y: nat, x: nat, n: nat, labels: seq<int>, parent: seq<nat>, up: int, left: int)
    requires x < w && n == y * w + x && n < |binary| && Labelled(binary, w, labels, parent, n)
    requires y > 0 ==> n >= w
    requires up == (if y > 0 then labels[n - w] else -1) && left == if x > 0 then labels[n - 1] else -1
    ensures up < |parent| && left < |parent|
    ensures TouchesRoots(binary, w, n, Roots(labels, parent), RootOr(parent, up), RootOr(parent, left))
  {
    var roots := Roots(labels, parent);
    NeighbourLabel(binary, labels, parent, n, up, if y > 0 then n - w else n);
    NeighbourLabel(binary, labels, parent, n, left, if x > 0 then n - 1 else n);
    forall k: nat | k < n && Foreground(binary, k)
      ensures Touched(binary, w, n, roots, k) <==> roots[k] == RootOr(parent, up) || roots[k] == RootOr(parent, left)
    {
      TouchedBy(binary, w, y, x, n, roots, k);
    }
  }

  /** A neighbour that carries a label is foreground, and its root is that of the label; without a neighbour the label is -1. */
  lemma NeighbourLabel(binary: seq<real>, labels: seq<int>, parent: seq<nat>, n: nat, l: int, m: nat)
    requires LabelsOk(binary, labels, parent, n) && m <= n < |binary| && l == if m < n then labels[m] else -1
    ensures l < |parent| && (l >= 0 <==> m < n && Foreground(binary, m))
    ensures l >= 0 ==> Roots(labels, parent)[m] == RootOr(parent, l)
    ensures forall k :: 0 <= k < n && Foreground(binary, k) ==> Roots(labels, parent)[k] >= 0
  {
  }

  /** Labels one pixel from its neighbours above and to the left, merging their trees if they differ. */
  method LabelPixel(binary: seq<real>, w: nat, y: nat, x: nat, idx: nat, labels: array<int>, forest: Forest)
    requires x < w && idx == y * w + x && idx < |binary| && Labelled(binary, w, labels[..], forest.parent, idx)
    modifies labels, forest
    ensures Labelled(binary, w, labels[..], forest.parent, idx + 1)
  {
    ghost var before := Roots(labels[..], forest.parent);
    if binary[idx] <= 0.0 {
      BackgroundKeepsSeparation(binary, w, idx, before);
      return;
    }
    if y > 0 {
      MultipleGap(w, 0, y);
    }
    var up := if y > 0 && labels[idx - w] >= 0 then labels[idx - w] else -1;
    var left := if x > 0 && labels[idx - 1] >= 0 then labels[idx - 1] else -1;
    NeighbourRootsAreTouched(binary, w, y, x, idx, labels[..], forest.parent, up, left);
    if up < 0 && left < 0 {
      LabelFresh(binary, w, idx, labels, forest);
    } else if up >= 0 && left >= 0 {
      LabelJoining(binary, w, idx, labels, forest, up, left);
    } else {
      LabelLike(binary, w, idx, labels, forest, if up >= 0 then up else left);
    }
  }

  method LabelRow(binary: seq<real>, w: nat, y: nat, start: nat, labels: array<int>, forest: Forest) returns (idx: nat)
    requires start == y * w && start + w <= |binary| && Labelled(binary, w, labels[..], forest.parent, start)
    modifies labels, forest
    ensures idx == start + w && Labelled(binary, w, labels[..], forest.parent, idx)
  {
    idx := start;
    for x: nat := 0 to w
      invariant idx == start + x
      invariant Labelled(binary, w, labels[..], forest.parent, idx)
    {
      LabelPixel(binary, w, y, x, idx, labels, forest);
      idx := idx + 1;
    }
  }

  method FirstPass(binary: seq<real>, h: nat, w: nat, labels: array<int>, forest: Forest)
    requires w > 0 && |binary| == h * w == labels.Length && forest.parent == []
    requires forall i :: 0 <= i < labels.Length ==> labels[i] == -1
    modifies labels, forest
    ensures Labelled(binary, w, labels[..], forest.parent, |binary|)
  {
    var idx := 0;
    for y: nat := 0 to h
      invariant idx == y * w && Labelled(binary, w, labels[..], forest.parent, idx)
    {
      RowFits(h, w, y);
      idx := LabelRow(binary, w, y, idx, labels, forest);
    }
  }

  // ---- Second pass: statistics per root ----

  ghost function ClassOf(roots: seq<int>, r: int, n: nat): set<nat>
    requires n <= |roots|
  {
    set i: nat | i < n && roots[i] == r
  }

  ghost predicate Counted(comps: seq<ComponentInfo>, roots: seq<int>, scores: seq<real>, w: nat, n: nat) {
    && n <= |roots|
    && forall r :: 0 <= r < |comps| ==> Summarises(comps[r], ClassOf(roots, r, n), scores, w, n)
  }

  lemma NothingCounted(comps: seq<ComponentInfo>, roots: seq<int>, scores: seq<real>, w: nat)
    requires w > 0 && forall r :: 0 <= r < |comps| ==> comps[r] == EMPTY_INFO
    ensures Counted(comps, roots, scores, w, 0)
  {
    forall r | 0 <= r < |comps|
      ensures Summarises(comps[r], ClassOf(roots, r, 0), scores, w, 0)
    {
      assert ClassOf(roots, r, 0) == {};
    }
  }

  lemma ClassGrows(comps: seq<ComponentInfo>, roots: seq<int>, scores: seq<real>, w: nat, n: nat, r: nat)
    requires w > 0 && Counted(comps, roots, scores, w, n) && n < |roots| == |scores| && r < |comps|
    requires Column(w, n) <= SIZE_MAX && Row(w, n) <= SIZE_MAX
    ensures r != roots[n] ==> Summarises(comps[r], ClassOf(roots, r, n + 1), scores, w, n + 1)
    ensures r == roots[n] ==>
              Summarises(Include(comps[r], Column(w, n), Row(w, n), scores[n]), ClassOf(roots, r, n + 1), scores, w, n + 1)
  {
    if r == roots[n] {
      PixelIncluded(comps[r], ClassOf(roots, r, n), scores, w, n);
      assert ClassOf(roots, r, n + 1) == ClassOf(roots, r, n) + {n};
    } else {
      PixelSkipped(comps[r], ClassOf(roots, r, n), scores, w, n);
      assert ClassOf(roots, r, n + 1) == ClassOf(roots, r, n);
    }
  }

  /** The statistics with pixel n included in the record of its root, if it has one. */
  ghost function WithPixel(comps: seq<ComponentInfo>, roots: seq<int>, scores: seq<real>, w: nat, n: nat): (more: seq<ComponentInfo>)
    requires w > 0 && n < |roots| == |scores|
    ensures |more| == |comps|
  {
    var r := roots[n];
    if 0 <= r < |comps| then comps[r := Include(comps[r], Column(w, n), Row(w, n), scores[n])] else comps
  }

  lemma PixelCounted(comps: seq<ComponentInfo>, roots: seq<int>, scores: seq<real>, w: nat, n: nat)
    requires w > 0 && Counted(comps, roots, scores, w, n) && n < |roots| == |scores|
    requires -1 <= roots[n] < |comps| && Column(w, n) <= SIZE_MAX && Row(w, n) <= SIZE_MAX
    ensures Counted(WithPixel(comps, roots, scores, w, n), roots, scores, w, n + 1)
  {
    var after := WithPixel(comps, roots, scores, w, n);
    forall r: nat | r < |comps|
      ensures Summarises(after[r], ClassOf(roots, r, n + 1), scores, w, n + 1)
    {
      ClassGrows(comps, roots, scores, w, n, r);
    }
  }

  /** Replaces a pixel's label by its root, which changes no pixel's root. */
  method Relabel(binary: seq<real>, idx: nat, labels: array<int>, forest: Forest) returns (root: nat)
    requires LabelsOk(binary, labels[..], forest.parent, |binary|) && idx < |binary| && labels[idx] >= 0
    modifies labels, forest
    ensures LabelsOk(binary, labels[..], forest.parent, |binary|) && |forest.parent| == |old(forest.parent)|
    ensures Roots(labels[..], forest.parent) == old(Roots(labels[..], forest.parent))
    ensures root == Roots(labels[..], forest.parent)[idx]
  {
    root := forest.FindRoot(labels[idx]);
    labels[idx] := root;
    assert Roots(labels[..], forest.parent) == old(Roots(labels[..], forest.parent));
  }

  /** The statistics of `count` roots after the first n pixels. */
  ghost function Statistics(roots: seq<int>, scores: seq<real>, w: nat, n: nat, count: nat): (comps: seq<ComponentInfo>)
    requires w > 0 && n <= |roots| == |scores|
    ensures |comps| == count
  {
    if n == 0 then seq(count, _ => EMPTY_INFO)
    else WithPixel(Statistics(roots, scores, w, n - 1, count), roots, scores, w, n - 1)
  }

  lemma StatisticsStep(roots: seq<int>, scores: seq<real>, w: nat, n: nat, count: nat)
    requires w > 0 && 0 < n <= |roots| == |scores|
    ensures Statistics(roots, scores, w, n, count) == WithPixel(Statistics(roots, scores, w, n - 1, count), roots, scores, w, n - 1)
  {
  }

  lemma {:induction false} StatisticsAreExact(roots: seq<int>, scores: seq<real>, w: nat, h: nat, n: nat, count: nat)
    requires 0 < w <= SIZE_MAX && h <= SIZE_MAX && n <= |roots| == |scores| == h * w
    requires forall i :: 0 <= i < |roots| ==> -1 <= roots[i] < count
    ensures Counted(Statistics(roots, scores, w, n, count), roots, scores, w, n)
  {
    if n == 0 {
      NothingCounted(Statistics(roots, scores, w, n, count), roots, scores, w);
    } else {
      var before := Statistics(roots, scores, w, n - 1, count);
      StatisticsAreExact(roots, scores, w, h, n - 1, count);
      IndexInGrid(h, w, n - 1);
      PixelCounted(before, roots, scores, w, n - 1);
      StatisticsStep(roots, scores, w, n, count);
    }
  }

  /** The second pass has counted the first n pixels; relabelling has left every pixel's root as it was. */
  ghost predicate CountedTo(binary: seq<real>, roots: seq<int>, scores: seq<real>, w: nat, n: nat,
                            labels: seq<int>, parent: seq<nat>, comps: seq<ComponentInfo>)
  {
    && LabelsOk(binary, labels, parent, |binary|) && |comps| == |parent|
    && Roots(labels, parent) == roots
    && w > 0 && n <= |roots| == |scores| && comps == Statistics(roots, scores, w, n, |parent|)
  }

  method CountPixel(binary: seq<real>, w: nat, y: nat, x: nat, idx: nat, scores: seq<real>, ghost roots: seq<int>,
                    labels: array<int>, forest: Forest, comps: array<ComponentInfo>)
    requires x < w <= SIZE_MAX && y <= SIZE_MAX && idx == y * w + x && idx < |binary| == |scores|
    requires CountedTo(binary, roots, scores, w, idx, labels[..], forest.parent, comps[..])
    modifies labels, forest, comps
    ensures CountedTo(binary, roots, scores, w, idx + 1, labels[..], forest.parent, comps[..])
  {
    IndexOf(w, y, x);
    if labels[idx] >= 0 {
      ghost var before := comps[..];
      var root := Relabel(binary, idx, labels, forest);
      comps[root] := Include(comps[root], x, y, scores[idx]);
      assert comps[..] == before[root := Include(before[root], x, y, scores[idx])];
    }
  }

  method CountRow(binary: seq<real>, w: nat, y: nat, start: nat, scores: seq<real>, ghost roots: seq<int>,
                  labels: array<int>, forest: Forest, comps: array<ComponentInfo>) returns (idx: nat)
    requires 0 < w <= SIZE_MAX && y <= SIZE_MAX && start == y * w && start + w <= |binary| == |scores|
    requires CountedTo(binary, roots, scores, w, start, labels[..], forest.parent, comps[..])
    modifies labels, forest, comps
    ensures idx == start + w && CountedTo(binary, roots, scores, w, idx, labels[..], forest.parent, comps[..])
  {
    idx := start;
    for x: nat := 0 to w
      invariant idx == start + x
      invariant CountedTo(binary, roots, scores, w, idx, labels[..], forest.parent, comps[..])
    {
      CountPixel(binary, w, y, x, idx, scores, roots, labels, forest, comps);
      idx := idx + 1;
    }
  }

  method SecondPass(binary: seq<real>, h: nat, w: nat, scores: seq<real>, labels: array<int>, forest: Forest, comps: array<ComponentInfo>)
    requires 0 < w <= SIZE_MAX && h <= SIZE_MAX && |binary| == h * w == |scores|
    requires LabelsOk(binary, labels[..], forest.parent, |binary|) && comps.Length == |forest.parent|
    requires forall r :: 0 <= r < comps.Length ==> comps[r] == EMPTY_INFO
    modifies labels, forest, comps
    ensures LabelsOk(binary, labels[..], forest.parent, |binary|) && comps.Length == |forest.parent|
    ensures Roots(labels[..], forest.parent) == old(Roots(labels[..], forest.parent))
    ensures Counted(comps[..], Roots(labels[..], forest.parent), scores, w, |binary|)
  {
    ghost var roots := Roots(labels[..], forest.parent);
    var idx := 0;
    for y: nat := 0 to h
      invariant idx == y * w
      invariant CountedTo(binary, roots, scores, w, idx, labels[..], forest.parent, comps[..])
    {
      RowFits(h, w, y);
      idx := CountRow(binary, w, y, idx, scores, roots, labels, forest, comps);
    }
    StatisticsAreExact(roots, scores, w, h, |binary|, |forest.parent|);
  }

  // ---- The regions ----

  /** A maximal 4-connected set of foreground pixels. */
  ghost predicate IsComponent(binary: seq<real>, w: nat, s: set<nat>)
    requires w > 0
  {
    && s != {}
    && (forall p :: p in s ==> Foreground(binary, p))
    && (forall p, q: nat :: p in s && Foreground(binary, q) ==> (q in s <==> Connected(binary, w, |binary|, p, q)))
  }

  ghost predicate InSome(parts: seq<set<nat>>, p: nat) {
    exists i :: 0 <= i < |parts| && p in parts[i]
  }

  /** All the components of the image, each once. */
  ghost predicate AreTheComponents(binary: seq<real>, w: nat, parts: seq<set<nat>>)
    requires w > 0
  {
    && (forall i :: 0 <= i < |parts| ==> IsComponent(binary, w, parts[i]))
    && (forall i, j :: 0 <= i < j < |parts| ==> parts[i] != parts[j])
    && (forall p: nat :: Foreground(binary, p) ==> InSome(parts, p))
  }

  ghost predicate DescribesEach(regions: seq<RegionProposal>, parts: seq<set<nat>>, scores: seq<real>, w: nat) {
    |regions| == |parts| && forall i :: 0 <= i < |parts| ==> Describes(regions[i], parts[i], scores, w)
  }

  /** One region per component, with its exact statistics, in any order. */
  ghost predicate ExactRegions(binary: seq<real>, w: nat, scores: seq<real>, regions: seq<RegionProposal>)
    requires w > 0
  {
    exists parts, listed :: AreListed(binary, w, scores, regions, parts, listed)
  }

  ghost predicate AreListed(binary: seq<real>, w: nat, scores: seq<real>, regions: seq<RegionProposal>,
                            parts: seq<set<nat>>, listed: seq<RegionProposal>)
    requires w > 0
  {
    AreTheComponents(binary, w, parts) && DescribesEach(listed, parts, scores, w) && multiset(listed) == multiset(regions)
  }

  lemma ClassIsComponent(binary: seq<real>, w: nat, labels: seq<int>, parent: seq<nat>, r: nat)
    requires Labelled(binary, w, labels, parent, |binary|) && ClassOf(Roots(labels, parent), r, |binary|) != {}
    ensures IsComponent(binary, w, ClassOf(Roots(labels, parent), r, |binary|))
  {
    var roots := Roots(labels, parent);
    var s := ClassOf(roots, r, |binary|);
    forall p, q: nat | p in s && Foreground(binary, q)
      ensures q in s <==> Connected(binary, w, |binary|, p, q)
    {
      SameLabelMeansConnected(binary, w, |binary|, roots, p, q);
    }
  }

  /** The nonempty classes below label k, in label order. */
  ghost predicate ListedBelow(roots: seq<int>, owners: seq<nat>, parts: seq<set<nat>>, k: nat) {
    && |owners| == |parts|
    && (forall i :: 0 <= i < |parts| ==> owners[i] < k && parts[i] == ClassOf(roots, owners[i], |roots|) && parts[i] != {})
    && (forall i, j :: 0 <= i < j < |owners| ==> owners[i] < owners[j])
    && (forall r: nat :: r < k && ClassOf(roots, r, |roots|) != {} ==> r in owners)
  }

  lemma ListedAreTheComponents(binary: seq<real>, w: nat, labels: seq<int>, parent: seq<nat>, owners: seq<nat>, parts: seq<set<nat>>)
    requires Labelled(binary, w, labels, parent, |binary|) && ListedBelow(Roots(labels, parent), owners, parts, |parent|)
    ensures AreTheComponents(binary, w, parts)
  {
    var roots := Roots(labels, parent);
    forall i | 0 <= i < |parts|
      ensures IsComponent(binary, w, parts[i])
    {
      ClassIsComponent(binary, w, labels, parent, owners[i]);
    }
    forall i, j | 0 <= i < j < |parts|
      ensures parts[i] != parts[j]
    {
      var p :| p in parts[i];
      assert p !in parts[j];
    }
    forall p: nat | Foreground(binary, p)
      ensures InSome(parts, p)
    {
      var r := roots[p];
      assert p in ClassOf(roots, r, |roots|);
      assert r in owners;
      var i :| 0 <= i < |owners| && owners[i] == r;
      assert p in parts[i];
    }
  }

  lemma ListOneMore(roots: seq<int>, owners: seq<nat>, parts: seq<set<nat>>, k: nat, s: set<nat>)
    requires ListedBelow(roots, owners, parts, k) && s == ClassOf(roots, k, |roots|)
    ensures s != {} ==> ListedBelow(roots, owners + [k], parts + [s], k + 1)
    ensures s == {} ==> ListedBelow(roots, owners, parts, k + 1)
  {
    if s != {} {
      var more := owners + [k];
      assert more[|owners|] == k;
      forall r: nat | r < k + 1 && ClassOf(roots, r, |roots|) != {}
        ensures r in more
      {
        if r < k {
          assert r in owners;
        }
      }
    }
  }

  lemma DescribeOneMore(regions: seq<RegionProposal>, parts: seq<set<nat>>, scores: seq<real>, w: nat, region: RegionProposal, s: set<nat>)
    requires DescribesEach(regions, parts, scores, w) && Describes(region, s, scores, w)
    ensures DescribesEach(regions + [region], parts + [s], scores, w)
  {
  }

  method BuildRegions(binary: seq<real>, w: nat, scores: seq<real>, ghost labels: seq<int>, ghost parent: seq<nat>, comps: array<ComponentInfo>)
    returns (regions: seq<RegionProposal>)
    requires Labelled(binary, w, labels, parent, |binary|) && |scores| == |binary| && comps.Length == |parent|
    requires Counted(comps[..], Roots(labels, parent), scores, w, |binary|)
    ensures ExactRegions(binary, w, scores, regions)
  {
    regions := [];
    ghost var roots := Roots(labels, parent);
    ghost var owners: seq<nat>, parts: seq<set<nat>> := [], [];
    for i: nat := 0 to comps.Length
      invariant ListedBelow(roots, owners, parts, i) && DescribesEach(regions, parts, scores, w)
    {
      var ci := comps[i];
      ghost var s := ClassOf(roots, i, |binary|);
      assert Summarises(comps[..][i], s, scores, w, |binary|);
      ListOneMore(roots, owners, parts, i, s);
      if ci.pixelCount > 0 {
        ProposalDescribes(ci, s, scores, w);
        DescribeOneMore(regions, parts, scores, w, ProposalOf(ci), s);
        regions := regions + [ProposalOf(ci)];
        owners, parts := owners + [i], parts + [s];
      }
    }
    ListedAreTheComponents(binary, w, labels, parent, owners, parts);
    assert AreListed(binary, w, scores, regions, parts, regions);
  }

  /** Labels the foreground of `binary` and returns one region per 4-connected component, best score first. */
  method Label(binary: seq<real>, h: nat, w: nat, scores: seq<real>) returns (regions: seq<RegionProposal>)
    requires w <= SIZE_MAX && h <= SIZE_MAX && |binary| == h * w == |scores|
    ensures h == 0 || w == 0 ==> regions == []
    ensures w > 0 ==> ExactRegions(binary, w, scores, regions)
    ensures ByScore(regions)
  {
    if h == 0 || w == 0 {
      if w > 0 {
        assert AreListed(binary, w, scores, [], [], []);
      }
      return [];
    }
    var labels := new int[h * w](_ => -1);
    var forest := new Forest();
    FirstPass(binary, h, w, labels, forest);
    if forest.parent == [] {
      assert AreListed(binary, w, scores, [], [], []);
      return [];
    }
    var comps := new ComponentInfo[|forest.parent|](_ => EMPTY_INFO);
    SecondPass(binary, h, w, scores, labels, forest, comps);
    regions := BuildRegions(binary, w, scores, labels[..], forest.parent, comps);
    ghost var parts, listed :| AreListed(binary, w, scores, regions, parts, listed);
    regions := SortByScore(regions);
    assert AreListed(binary, w, scores, regions, parts, listed);
  }

  // ---- The specification leaves no choice ----

  lemma OverlappingComponentsAreEqual(binary: seq<real>, w: nat, s: set<nat>, t: set<nat>, p: nat)
    requires w > 0 && IsComponent(binary, w, s) && IsComponent(binary, w, t) && p in s && p in t
    ensures s == t
  {
    assert forall q :: q in s <==> q in t;
  }

  lemma SpanIsUnique(w: nat, axis: Axis, s: set<nat>, lo: nat, hi: nat, lo': nat, hi': nat)
    requires w > 0 && Spans(w, axis, s, lo, hi) && Spans(w, axis, s, lo', hi')
    ensures lo == lo' && hi == hi'
  {
  }

  lemma DescriptionIsUnique(a: RegionProposal, b: RegionProposal, s: set<nat>, scores: seq<real>, w: nat)
    requires Describes(a, s, scores, w) && Describes(b, s, scores, w)
    ensures a == b
  {
    SpanIsUnique(w, Horizontal, s, a.bbox.x, a.bbox.x + a.bbox.width - 1, b.bbox.x, b.bbox.x + b.bbox.width - 1);
    SpanIsUnique(w, Vertical, s, a.bbox.y, a.bbox.y + a.bbox.height - 1, b.bbox.y, b.bbox.y + b.bbox.height - 1);
    MaxIsUnique(scores, s, a.maxAnomalyScore, b.maxAnomalyScore);
    MeanIsUnique(scores, s, a.meanAnomalyScore, b.meanAnomalyScore);
  }

  lemma MeanIsUnique(scores: seq<real>, s: set<nat>, m: real, m': real)
    requires s != {} && IsMeanScore(scores, s, m) && IsMeanScore(scores, s, m')
    ensures m == m'
  {
    QuotientIsUnique(m, m', |s| as real);
  }

  lemma MaxIsUnique(scores: seq<real>, s: set<nat>, m: real, m': real)
    requires IsMaxScore(scores, s, m) && IsMaxScore(scores, s, m')
    ensures m == m'
  {
  }

  lemma QuotientIsUnique(a: real, b: real, d: real)
    requires d > 0.0 && a * d == b * d
    ensures a == b
  {
    assert (a - b) * d == 0.0;
  }

  /** Every region comes from a set of foreground pixels. */
  lemma RegionHasPart(binary: seq<real>, w: nat, scores: seq<real>, regions: seq<RegionProposal>, region: RegionProposal) returns (part: set<nat>)
    requires w > 0 && ExactRegions(binary, w, scores, regions) && region in regions
    ensures IsComponent(binary, w, part) && Describes(region, part, scores, w)
  {
    var parts, listed :| AreListed(binary, w, scores, regions, parts, listed);
    assert region in multiset(regions);
    assert region in multiset(listed);
    var i :| 0 <= i < |listed| && listed[i] == region;
    part := parts[i];
  }

  /** Every component has its region. */
  lemma PartHasRegion(binary: seq<real>, w: nat, scores: seq<real>, regions: seq<RegionProposal>, part: set<nat>) returns (region: RegionProposal)
    requires w > 0 && ExactRegions(binary, w, scores, regions) && IsComponent(binary, w, part)
    ensures region in regions && Describes(region, part, scores, w)
  {
    var parts, listed :| AreListed(binary, w, scores, regions, parts, listed);
    var p :| p in part;
    assert Foreground(binary, p) && InSome(parts, p);
    var j :| 0 <= j < |parts| && p in parts[j];
    OverlappingComponentsAreEqual(binary, w, part, parts[j], p);
    region := listed[j];
    assert region in multiset(listed);
    assert region in multiset(regions);
  }

  /** Any two exact region lists of an image hold the same regions. */
  lemma ExactRegionsAreUnique(binary: seq<real>, w: nat, scores: seq<real>, a: seq<RegionProposal>, b: seq<RegionProposal>, region: RegionProposal)
    requires w > 0 && ExactRegions(binary, w, scores, a) && ExactRegions(binary, w, scores, b)
    ensures region in a <==> region in b
  {
    if region in a {
      HeldByBoth(binary, w, scores, a, b, region);
    }
    if region in b {
      HeldByBoth(binary, w, scores, b, a, region);
    }
  }

  lemma HeldByBoth(binary: seq<real>, w: nat, scores: seq<real>, a: seq<RegionProposal>, b: seq<RegionProposal>, region: RegionProposal)
    requires w > 0 && ExactRegions(binary, w, scores, a) && ExactRegions(binary, w, scores, b)
    requires region in a
    ensures region in b
  {
    var part := RegionHasPart(binary, w, scores, a, region);
    var other := PartHasRegion(binary, w, scores, b, part);
    DescriptionIsUnique(region, other, part, scores, w);
  }

  // ---- What the regions say about the foreground ----

  ghost predicate HasForeground(binary: seq<real>) {
    exists p: nat :: Foreground(binary, p)
  }

  lemma RegionsExistWhenForegroundDoes(binary: seq<real>, w: nat, scores: seq<real>, regions: seq<RegionProposal>)
    requires w > 0 && ExactRegions(binary, w, scores, regions)
    ensures regions != [] <==> HasForeground(binary)
  {
    var parts, listed :| AreListed(binary, w, scores, regions, parts, listed);
    assert |multiset(listed)| == |listed| && |multiset(regions)| == |regions|;
    if regions != [] {
      var p :| p in parts[0];
      assert Foreground(binary, p);
    }
  }
}
