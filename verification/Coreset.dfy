/** Feature bank construction (src/detection/feature_bank.cpp): greedy furthest-point coreset and strided subsampling. */
module Coreset {
  import opened Basics
  import opened Vectors
  import opened Pigeonhole

  /** One embedding: its declared dimension and its patch vectors. */
  datatype Embedding = Embedding(dim: nat, rows: seq<Vector>)

  /** Entries of the input list may be null. */
  datatype Slot = Null | Given(embedding: Embedding)

  datatype Error = NoEmbeddings | DimensionMismatch | NoPatches

  datatype Result<T> = Ok(value: T) | Err(error: Error)

  datatype FeatureBank = FeatureBank(vectors: seq<Vector>, dim: nat)

  // ---- Collecting patch vectors ----

  ghost predicate Consistent(slots: seq<Slot>) {
    forall i :: 0 <= i < |slots| && slots[i].Given? ==> Rectangular(slots[i].embedding.rows, slots[i].embedding.dim)
  }

  ghost predicate AllOfDim(slots: seq<Slot>, dim: nat) {
    forall i :: 0 <= i < |slots| && slots[i].Given? ==> slots[i].embedding.dim == dim
  }

  function AllRows(slots: seq<Slot>): seq<Vector> {
    if slots == [] then []
    else
      var last := slots[|slots| - 1];
      AllRows(slots[..|slots| - 1]) + if last.Given? then last.embedding.rows else []
  }

  /** The rows of two lists of slots, one after the other; an embedding alone gives its rows, a null entry none. */
  lemma {:induction false} RowsJoin(a: seq<Slot>, b: seq<Slot>, e: Embedding)
    ensures AllRows(a + b) == AllRows(a) + AllRows(b)
    ensures AllRows([Given(e)]) == e.rows && AllRows([Null]) == []
  {
    assert [Given(e)][..0] == [] && [Null][..0] == [];
    if b == [] {
      assert a + b == a;
    } else {
      RowsJoin(a, b[..|b| - 1], e);
      assert (a + b)[..|a + b| - 1] == a + b[..|b| - 1];
    }
  }

  method Collect(slots: seq<Slot>, dim: nat) returns (r: Result<seq<Vector>>)
    requires Consistent(slots)
    ensures r == if slots == [] then Err(NoEmbeddings)
                 else if !AllOfDim(slots, dim) then Err(DimensionMismatch)
                 else if AllRows(slots) == [] then Err(NoPatches)
                 else Ok(AllRows(slots))
    ensures r.Ok? ==> Rectangular(r.value, dim)
  {
    if slots == [] {
      return Err(NoEmbeddings);
    }
    var all := [];
    for i := 0 to |slots|
      invariant AllOfDim(slots[..i], dim) && all == AllRows(slots[..i]) && Rectangular(all, dim)
    {
      assert slots[..i + 1][..i] == slots[..i];
      match slots[i]
      case Null =>
      case Given(e) =>
        if e.dim != dim {
          return Err(DimensionMismatch);
        }
        all := all + e.rows;
    }
    assert slots[..|slots|] == slots;
    r := if all == [] then Err(NoPatches) else Ok(all);
  }

  // ---- Furthest-point traversal ----

  ghost predicate Indices(points: seq<Vector>, chosen: seq<nat>) {
    chosen != [] && forall t :: 0 <= t < |chosen| ==> chosen[t] < |points|
  }

  /** Squared distance from point i to the nearest chosen point. */
  ghost function Nearest(points: seq<Vector>, dim: nat, chosen: seq<nat>, i: nat): real
    requires Rectangular(points, dim) && Indices(points, chosen) && i < |points|
  {
    var d := SqDist(points[i], points[chosen[|chosen| - 1]]);
    if |chosen| == 1 then d
    else
      var before := Nearest(points, dim, chosen[..|chosen| - 1], i);
      if d < before then d else before
  }

  /** c is the first index that is furthest from the chosen points. */
  ghost predicate IsFirstFurthest(points: seq<Vector>, dim: nat, chosen: seq<nat>, c: nat)
    requires Rectangular(points, dim) && Indices(points, chosen)
  {
    && c < |points|
    && (forall i :: 0 <= i < |points| ==> Nearest(points, dim, chosen, i) <= Nearest(points, dim, chosen, c))
    && (forall i :: 0 <= i < c ==> Nearest(points, dim, chosen, i) < Nearest(points, dim, chosen, c))
  }

  /** Starts at the first point and always goes on to the first furthest one. */
  ghost predicate FurthestTraversal(points: seq<Vector>, dim: nat, chosen: seq<nat>)
    requires Rectangular(points, dim)
  {
    && Indices(points, chosen) && chosen[0] == 0
    && forall t :: 1 <= t < |chosen| ==> IsFirstFurthest(points, dim, chosen[..t], chosen[t])
  }

  /** The distance cache holds, for every point, its distance to the chosen set. */
  ghost predicate Caches(minDist: array<real>, points: seq<Vector>, dim: nat, chosen: seq<nat>)
    requires Rectangular(points, dim) && Indices(points, chosen)
    reads minDist
  {
    minDist.Length == |points| && forall i :: 0 <= i < |points| ==> minDist[i] == Nearest(points, dim, chosen, i)
  }

  method Seed(points: seq<Vector>, dim: nat) returns (minDist: array<real>)
    requires Rectangular(points, dim) && points != []
    ensures fresh(minDist) && Caches(minDist, points, dim, [0])
  {
    minDist := new real[|points|](_ => 0.0);
    for i := 1 to |points|
      invariant forall m :: 1 <= m < i ==> minDist[m] == SqDist(points[m], points[0])
    {
      minDist[i] := SquaredDistance(points[i], points[0]);
    }
    minDist[0] := 0.0;
    SqDistZero(points[0], points[0]);
  }

  /** First index of the largest entry. */
  method ArgMax(minDist: array<real>) returns (best: nat)
    requires minDist.Length > 0 && forall i :: 0 <= i < minDist.Length ==> minDist[i] >= 0.0
    ensures best < minDist.Length
    ensures forall i :: 0 <= i < minDist.Length ==> minDist[i] <= minDist[best]
    ensures forall i :: 0 <= i < best ==> minDist[i] < minDist[best]
  {
    best := 0;
    var bestDist := -1.0;
    for i := 0 to minDist.Length
      invariant best < minDist.Length && (i == 0 ==> bestDist == -1.0) && (i > 0 ==> best < i && bestDist == minDist[best])
      invariant forall m :: 0 <= m < i ==> minDist[m] <= bestDist
      invariant i > 0 ==> forall m :: 0 <= m < best ==> minDist[m] < bestDist
    {
      if minDist[i] > bestDist {
        bestDist := minDist[i];
        best := i;
      }
    }
  }

  /** Takes the newly chosen point into the cache; entries already zero are skipped. */
  method Update(minDist: array<real>, points: seq<Vector>, dim: nat, ghost chosen: seq<nat>, best: nat)
    requires Rectangular(points, dim) && Indices(points, chosen) && best < |points| && Caches(minDist, points, dim, chosen)
    modifies minDist
    ensures Indices(points, chosen + [best]) && Caches(minDist, points, dim, chosen + [best])
  {
    ghost var longer := chosen + [best];
    assert longer[..|longer| - 1] == chosen;
    minDist[best] := 0.0;
    SqDistZero(points[best], points[best]);
    NearestNonNegative(points, dim, chosen, best);
    for i := 0 to |points|
      invariant minDist.Length == |points|
      invariant forall m :: 0 <= m < i ==> minDist[m] == Nearest(points, dim, longer, m)
      invariant forall m :: i <= m < |points| ==> minDist[m] == if m == best then 0.0 else Nearest(points, dim, chosen, m)
    {
      SqDistZero(points[i], points[best]);
      if minDist[i] == 0.0 {
        continue;
      }
      var d := SquaredDistance(points[i], points[best]);
      if d < minDist[i] {
        minDist[i] := d;
      }
    }
  }

  method GreedySelect(points: seq<Vector>, dim: nat, numSamples: nat) returns (chosen: seq<nat>, minDist: array<real>)
    requires Rectangular(points, dim) && points != []
    ensures FurthestTraversal(points, dim, chosen)
    ensures |chosen| == if numSamples == 0 then 1 else numSamples
    ensures Caches(minDist, points, dim, chosen)
  {
    chosen := [0];
    minDist := Seed(points, dim);
    var k := 1;
    while k < numSamples
      invariant 1 <= k && (k == 1 || k <= numSamples) && |chosen| == k && FurthestTraversal(points, dim, chosen)
      invariant fresh(minDist) && Caches(minDist, points, dim, chosen)
    {
      forall i | 0 <= i < |points|
        ensures minDist[i] >= 0.0
      {
        NearestNonNegative(points, dim, chosen, i);
      }
      var best := ArgMax(minDist);
      assert IsFirstFurthest(points, dim, chosen, best);
      ExtendTraversal(points, dim, chosen, best);
      Update(minDist, points, dim, chosen, best);
      chosen := chosen + [best];
      k := k + 1;
    }
  }

  lemma ExtendTraversal(points: seq<Vector>, dim: nat, chosen: seq<nat>, best: nat)
    requires Rectangular(points, dim) && FurthestTraversal(points, dim, chosen) && IsFirstFurthest(points, dim, chosen, best)
    ensures FurthestTraversal(points, dim, chosen + [best])
  {
    var longer := chosen + [best];
    forall t | 1 <= t < |longer|
      ensures Indices(points, longer[..t]) && IsFirstFurthest(points, dim, longer[..t], longer[t])
    {
      assert longer[..t] == chosen[..t];
      if t == |chosen| {
        assert chosen[..t] == chosen;
      }
    }
  }

  lemma {:induction false} NearestNonNegative(points: seq<Vector>, dim: nat, chosen: seq<nat>, i: nat)
    requires Rectangular(points, dim) && Indices(points, chosen) && i < |points|
    ensures Nearest(points, dim, chosen, i) >= 0.0
  {
    SqDistZero(points[i], points[chosen[|chosen| - 1]]);
    if |chosen| > 1 {
      NearestNonNegative(points, dim, chosen[..|chosen| - 1], i);
    }
  }

  method Gather(points: seq<Vector>, chosen: seq<nat>) returns (rows: seq<Vector>)
    requires forall t :: 0 <= t < |chosen| ==> chosen[t] < |points|
    ensures |rows| == |chosen| && forall t :: 0 <= t < |chosen| ==> rows[t] == points[chosen[t]]
  {
    rows := [];
    for t := 0 to |chosen|
      invariant |rows| == t && forall m :: 0 <= m < t ==> rows[m] == points[chosen[m]]
    {
      rows := rows + [points[chosen[t]]];
    }
  }

  /** The bank holds the points of a furthest-point traversal of all patch vectors. */
  ghost predicate IsGreedyBank(bank: FeatureBank, points: seq<Vector>, dim: nat, maxSamples: nat)
    requires Rectangular(points, dim)
  {
    && bank.dim == dim
    && |bank.vectors| == Min(maxSamples, |points|)
    && exists chosen :: FurthestTraversal(points, dim, chosen) && |chosen| >= |bank.vectors|
                        && (maxSamples > 0 ==> |chosen| == |bank.vectors|)
                        && forall t :: 0 <= t < |bank.vectors| ==> bank.vectors[t] == points[chosen[t]]
  }

  method BuildWithGreedyCoreset(slots: seq<Slot>, dim: nat, maxSamples: nat) returns (r: Result<FeatureBank>)
    requires Consistent(slots)
    ensures r.Err? <==> slots == [] || !AllOfDim(slots, dim) || AllRows(slots) == []
    ensures r.Ok? ==> Rectangular(AllRows(slots), dim) && IsGreedyBank(r.value, AllRows(slots), dim, maxSamples)
  {
    var all := Collect(slots, dim);
    if all.Err? {
      return Err(all.error);
    }
    var points := all.value;
    var numSamples := Min(maxSamples, |points|);
    var chosen, minDist := GreedySelect(points, dim, numSamples);
    var rows := Gather(points, chosen);
    // The bank is rebuilt from the first numSamples rows.
    r := Ok(FeatureBank(rows[..numSamples], dim));
  }

  // ---- The approximation theorem ----

  lemma {:induction false} NearestIsLowerBound(points: seq<Vector>, dim: nat, chosen: seq<nat>, i: nat, t: nat)
    requires Rectangular(points, dim) && Indices(points, chosen) && i < |points| && t < |chosen|
    ensures Nearest(points, dim, chosen, i) <= SqDist(points[i], points[chosen[t]])
  {
    if t < |chosen| - 1 {
      NearestIsLowerBound(points, dim, chosen[..|chosen| - 1], i, t);
    }
  }

  lemma {:induction false} NearestIsAttained(points: seq<Vector>, dim: nat, chosen: seq<nat>, i: nat) returns (t: nat)
    requires Rectangular(points, dim) && Indices(points, chosen) && i < |points|
    ensures t < |chosen| && Nearest(points, dim, chosen, i) == SqDist(points[i], points[chosen[t]])
  {
    t := |chosen| - 1;
    if |chosen| > 1 && Nearest(points, dim, chosen, i) != SqDist(points[i], points[chosen[t]]) {
      t := NearestIsAttained(points, dim, chosen[..|chosen| - 1], i);
    }
  }

  lemma {:induction false} MoreChosenIsNearer(points: seq<Vector>, dim: nat, chosen: seq<nat>, t: nat, i: nat)
    requires Rectangular(points, dim) && Indices(points, chosen) && i < |points| && 1 <= t <= |chosen|
    ensures Nearest(points, dim, chosen, i) <= Nearest(points, dim, chosen[..t], i)
  {
    if t < |chosen| {
      MoreChosenIsNearer(points, dim, chosen[..|chosen| - 1], t, i);
      assert chosen[..|chosen| - 1][..t] == chosen[..t];
    } else {
      assert chosen[..t] == chosen;
    }
  }

  /** Chosen points are pairwise at least as far apart as any point is from the chosen set. */
  lemma ChosenAreSeparated(points: seq<Vector>, dim: nat, chosen: seq<nat>, a: nat, b: nat, i: nat)
    requires Rectangular(points, dim) && FurthestTraversal(points, dim, chosen) && a < b < |chosen| && i < |points|
    ensures Nearest(points, dim, chosen, i) <= SqDist(points[chosen[b]], points[chosen[a]])
  {
    MoreChosenIsNearer(points, dim, chosen, b, i);
    assert IsFirstFurthest(points, dim, chosen[..b], chosen[b]);
    NearestIsLowerBound(points, dim, chosen[..b], chosen[b], a);
  }

  lemma {:induction false} RelaxedTriangleTo(x: Vector, y: Vector, c: Vector, n: nat)
    requires |x| == |y| == |c| && n <= |x|
    ensures DotTo(Minus(x, y), Minus(x, y), n) <= 2.0 * DotTo(Minus(x, c), Minus(x, c), n) + 2.0 * DotTo(Minus(y, c), Minus(y, c), n)
  {
    if n > 0 {
      RelaxedTriangleTo(x, y, c, n - 1);
      var a, b := x[n - 1] - c[n - 1], y[n - 1] - c[n - 1];
      SquareSign(a + b, (a + b) * (a + b));
      assert (a - b) * (a - b) + (a + b) * (a + b) == 2.0 * (a * a) + 2.0 * (b * b);
      assert x[n - 1] - y[n - 1] == a - b;
    }
  }

  /** |x - y|^2 <= 2 |x - c|^2 + 2 |y - c|^2. */
  lemma RelaxedTriangle(x: Vector, y: Vector, c: Vector)
    requires |x| == |y| == |c|
    ensures SqDist(x, y) <= 2.0 * SqDist(x, c) + 2.0 * SqDist(y, c)
  {
    RelaxedTriangleTo(x, y, c, |x|);
  }

  /** Every point lies within squared distance rho2 of some centre. */
  ghost predicate Covers(points: seq<Vector>, dim: nat, centres: seq<Vector>, rho2: real)
    requires Rectangular(points, dim) && Rectangular(centres, dim)
  {
    forall i :: 0 <= i < |points| ==> CoveredBy(points[i], centres, dim, rho2)
  }

  ghost predicate CoveredBy(x: Vector, centres: seq<Vector>, dim: nat, rho2: real)
    requires |x| == dim && Rectangular(centres, dim)
  {
    exists c :: 0 <= c < |centres| && SqDist(x, centres[c]) <= rho2
  }

  ghost function CentreOf(x: Vector, centres: seq<Vector>, dim: nat, rho2: real): (c: nat)
    requires |x| == dim && Rectangular(centres, dim) && CoveredBy(x, centres, dim, rho2)
    ensures c < |centres| && SqDist(x, centres[c]) <= rho2
  {
    var c: nat :| c < |centres| && SqDist(x, centres[c]) <= rho2;
    c
  }

  /** Gonzalez: no choice of as many centres, anywhere in space, covers the points more than twice as tightly.
      In squared distances: if k centres cover with rho2, the k chosen points cover with 4 * rho2. */
  lemma GreedyIsTwoApproximation(points: seq<Vector>, dim: nat, chosen: seq<nat>, centres: seq<Vector>, rho2: real, i: nat)
    requires Rectangular(points, dim) && FurthestTraversal(points, dim, chosen) && i < |points|
    requires Rectangular(centres, dim) && |centres| == |chosen| && Covers(points, dim, centres, rho2)
    ensures Nearest(points, dim, chosen, i) <= 4.0 * rho2
  {
    var far := chosen + [i];
    var holes := seq(|far|, t requires 0 <= t < |far| => CentreOf(points[far[t]], centres, dim, rho2));
    var s, t := TwoInOneHole(holes, FirstNumbers(|centres|));
    var x, y, c := points[far[t]], points[far[s]], centres[holes[t]];
    if t < |chosen| {
      ChosenAreSeparated(points, dim, chosen, s, t, i);
    } else {
      NearestIsLowerBound(points, dim, chosen, i, s);
    }
    RelaxedTriangle(x, y, c);
  }

  /** The bank built by the greedy method covers all patch vectors that tightly. */
  lemma GreedyBankIsTwoApproximation(bank: FeatureBank, points: seq<Vector>, dim: nat, maxSamples: nat, centres: seq<Vector>, rho2: real, i: nat)
    requires Rectangular(points, dim) && IsGreedyBank(bank, points, dim, maxSamples) && maxSamples > 0 && i < |points|
    requires Rectangular(centres, dim) && |centres| == |bank.vectors| && Covers(points, dim, centres, rho2)
    ensures Rectangular(bank.vectors, dim) && CoveredBy(points[i], bank.vectors, dim, 4.0 * rho2)
  {
    var chosen :| FurthestTraversal(points, dim, chosen) && |chosen| == |bank.vectors|
                  && forall t :: 0 <= t < |bank.vectors| ==> bank.vectors[t] == points[chosen[t]];
    GreedyIsTwoApproximation(points, dim, chosen, centres, rho2, i);
    var t := NearestIsAttained(points, dim, chosen, i);
    assert bank.vectors[t] == points[chosen[t]];
  }

  // ---- Strided subsampling ----

  function Stride(total: nat, quota: nat): (stride: nat)
    requires quota > 0
    ensures stride >= 1 && (total > quota ==> quota * stride <= total)
  {
    if total > quota then total / quota else 1
  }

  /** Exactly min(maxSamples, total) vectors, taken at equal strides from the front. */
  ghost predicate IsStridedBank(bank: FeatureBank, points: seq<Vector>, dim: nat, maxSamples: nat)
    requires maxSamples > 0
  {
    var stride := Stride(|points|, maxSamples);
    && bank.dim == dim && |bank.vectors| == Min(maxSamples, |points|)
    && forall m :: 0 <= m < |bank.vectors| ==> IsStrideStep(points, stride, bank.vectors[m], m)
  }

  /** v is the vector m strides from the front. */
  ghost predicate IsStrideStep(points: seq<Vector>, stride: nat, v: Vector, m: nat) {
    0 <= m * stride < |points| && v == points[m * stride]
  }

  lemma StrideIs(total: nat, quota: nat, s: nat)
    requires 0 < quota < total && quota * s <= total < quota * (s + 1)
    ensures Stride(total, quota) == s
  {
    var stride := Stride(total, quota);
    assert total == quota * stride + total % quota;
    assert (stride + 1) * quota == quota * stride + quota;
    if stride < s {
      MultiplyMonotone(stride + 1, s, quota);
    } else if s < stride {
      MultiplyMonotone(s + 1, stride, quota);
    }
  }

  /** When not all vectors fit, the ones taken are those at the multiples of s, the largest stride for which the quota fits. */
  lemma StridedBankTakesMultiples(bank: FeatureBank, points: seq<Vector>, dim: nat, maxSamples: nat, s: nat, m: nat)
    requires 0 < maxSamples < |points| && IsStridedBank(bank, points, dim, maxSamples)
    requires maxSamples * s <= |points| < maxSamples * (s + 1) && m < maxSamples
    ensures |bank.vectors| == maxSamples && 0 <= m * s < |points| && bank.vectors[m] == points[m * s]
  {
    StrideIs(|points|, maxSamples, s);
    assert IsStrideStep(points, s, bank.vectors[m], m);
  }

  /** The last position taken is within one stride of the end exactly if the quota divides the number of vectors; otherwise fewer
      vectors than the quota are left over behind that. */
  lemma LastTakenNearEndExactlyWhen(total: nat, quota: nat, s: nat)
    requires 0 < quota < total && quota * s <= total < quota * (s + 1)
    ensures total - (quota - 1) * s <= s <==> total % quota == 0
    ensures total - (quota - 1) * s < s + quota
  {
    StrideIs(total, quota, s);
    assert total == quota * s + total % quota;
    assert (quota - 1) * s == quota * s - s;
  }

  /** Seven vectors and a quota of four: the stride is one, and the last three vectors are never looked at. */
  lemma LastThreeOfSeven(bank: FeatureBank, points: seq<Vector>, dim: nat)
    requires |points| == 7 && IsStridedBank(bank, points, dim, 4)
    ensures bank.vectors == points[..4]
  {
    forall m: nat | m < 4
      ensures |bank.vectors| == 4 && bank.vectors[m] == points[m]
    {
      StridedBankTakesMultiples(bank, points, dim, 4, 1, m);
    }
  }

  method Subsample(points: seq<Vector>, maxSamples: nat) returns (rows: seq<Vector>)
    requires 0 < maxSamples < |points|
    ensures |rows| == maxSamples
    ensures forall m :: 0 <= m < maxSamples ==> IsStrideStep(points, Stride(|points|, maxSamples), rows[m], m)
  {
    var stride := Stride(|points|, maxSamples);
    rows := [];
    var i := 0;
    ghost var taken := 0;
    while i < |points| && |rows| < maxSamples
      invariant taken == |rows| <= maxSamples && i == taken * stride
      invariant forall m :: 0 <= m < |rows| ==> IsStrideStep(points, stride, rows[m], m)
      decreases maxSamples - |rows|
    {
      assert IsStrideStep(points, stride, points[i], taken);
      rows := rows + [points[i]];
      i := i + stride;
      NextMultiple(taken, stride);
      taken := taken + 1;
    }
    if |rows| < maxSamples {
      StrideFits(|points|, maxSamples, |rows|);
    }
    // The loop above always fills the quota, so nothing is left to top up.
    rows := TopUp(rows, points, maxSamples);
  }

  /** Continues with the vectors at the positions that follow the ones already taken. */
  method TopUp(rows: seq<Vector>, points: seq<Vector>, maxSamples: nat) returns (full: seq<Vector>)
    requires |rows| <= |points|
    ensures |full| == if |rows| >= maxSamples then |rows| else Min(maxSamples, |points|)
    ensures |rows| <= |full| <= |points| && full == rows + points[|rows|..|full|]
  {
    full := rows;
    while |full| < maxSamples && |full| < |points|
      invariant |rows| <= |full| <= |points| && full == rows + points[|rows|..|full|]
      invariant |full| <= maxSamples || full == rows
      decreases maxSamples - |full|
    {
      full := full + [points[|full|]];
    }
  }

  lemma NextMultiple(m: nat, stride: nat)
    ensures (m + 1) * stride == m * stride + stride
  {
  }

  lemma StrideFits(total: nat, quota: nat, taken: nat)
    requires 0 < quota < total && taken < quota
    ensures 0 <= taken * Stride(total, quota) < total
  {
    var stride := Stride(total, quota);
    MultiplyMonotone(taken, quota - 1, stride);
    assert (quota - 1) * stride == quota * stride - stride;
  }

  lemma MultiplyMonotone(a: nat, b: nat, s: nat)
    requires a <= b
    ensures 0 <= a * s <= b * s
  {
    assert (b - a) * s >= 0;
  }

  method BuildFromEmbeddings(slots: seq<Slot>, dim: nat, maxSamples: nat) returns (r: Result<FeatureBank>)
    requires Consistent(slots)
    requires maxSamples > 0 || slots == [] || !AllOfDim(slots, dim) || AllRows(slots) == []
    ensures r.Err? <==> slots == [] || !AllOfDim(slots, dim) || AllRows(slots) == []
    ensures r.Err? ==> r.error == if slots == [] then NoEmbeddings else if !AllOfDim(slots, dim) then DimensionMismatch else NoPatches
    ensures r.Ok? ==> maxSamples > 0 && IsStridedBank(r.value, AllRows(slots), dim, maxSamples)
  {
    var all := Collect(slots, dim);
    if all.Err? {
      return Err(all.error);
    }
    var rows := all.value;
    if |rows| > maxSamples {
      rows := Subsample(rows, maxSamples);
    } else {
      assert forall m :: 0 <= m < |rows| ==> IsStrideStep(rows, 1, rows[m], m);
    }
    r := Ok(FeatureBank(rows, dim));
  }
}
