/** Online evolution of the feature bank: an active and a standby bank, updated from frames that passed every signal
    (src/detection/coreset_evolution.cpp).
    Searching a bank, profiling it and saving it are parameters. */
module CoresetEvolution {
  import opened Basics
  import opened Vectors
  import opened Coreset
  import opened CandidateBuffer
  import opened DriftMonitor
  import opened EvolutionSignals

  /** What the model takes from outside: profiles of sampled self-queries, k-th neighbour distances, and the square root. */
  datatype World = World(profile: (FeatureBank, nat) -> Profile, kth: (FeatureBank, Vector) -> real, sqrt: real -> real)

  ghost predicate ProperWorld(world: World) {
    && IsSquareRoot(world.sqrt)
    && forall b: FeatureBank, n: nat {:trigger (world.profile)(b, n)} :: b.vectors != [] ==>
         (world.profile)(b, n).dim == b.dim && (world.profile)(b, n).numSamples == |b.vectors|
  }

  // ---- Where bank vectors come from ----

  /** v is an initial vector or belongs to a frame that passed all five signals. */
  ghost predicate Trusted(v: Vector, initial: seq<Vector>, accepted: seq<(Offer, Profile)>) {
    v in initial || exists i :: 0 <= i < |accepted| && v in accepted[i].0.vectors
  }

  ghost predicate AllTrusted(vectors: seq<Vector>, initial: seq<Vector>, accepted: seq<(Offer, Profile)>) {
    vectors == [] || (AllTrusted(vectors[..|vectors| - 1], initial, accepted) && Trusted(vectors[|vectors| - 1], initial, accepted))
  }

  lemma {:induction false} TrustedMembers(vectors: seq<Vector>, initial: seq<Vector>, accepted: seq<(Offer, Profile)>)
    ensures AllTrusted(vectors, initial, accepted) <==> forall v :: v in vectors ==> Trusted(v, initial, accepted)
  {
    if vectors != [] {
      var front, last := vectors[..|vectors| - 1], vectors[|vectors| - 1];
      TrustedMembers(front, initial, accepted);
      assert vectors == front + [last];
    }
  }

  lemma TrustedFrom(part: seq<Vector>, a: seq<Vector>, b: seq<Vector>, initial: seq<Vector>, accepted: seq<(Offer, Profile)>)
    requires AllTrusted(a, initial, accepted) && AllTrusted(b, initial, accepted)
    requires forall v :: v in part ==> v in a || v in b
    ensures AllTrusted(part, initial, accepted)
  {
    TrustedMembers(a, initial, accepted);
    TrustedMembers(b, initial, accepted);
    TrustedMembers(part, initial, accepted);
  }

  lemma InitialIsTrusted(initial: seq<Vector>)
    ensures AllTrusted(initial, initial, [])
  {
    TrustedMembers(initial, initial, []);
  }

  lemma TrustGrows(vectors: seq<Vector>, initial: seq<Vector>, accepted: seq<(Offer, Profile)>, more: (Offer, Profile))
    requires AllTrusted(vectors, initial, accepted)
    ensures AllTrusted(vectors, initial, accepted + [more])
  {
    TrustedMembers(vectors, initial, accepted);
    forall v | v in vectors
      ensures Trusted(v, initial, accepted + [more])
    {
      if v !in initial {
        var i :| 0 <= i < |accepted| && v in accepted[i].0.vectors;
        assert (accepted + [more])[i] == accepted[i];
      }
    }
    TrustedMembers(vectors, initial, accepted + [more]);
  }

  /** The candidate is a stored frame, with the score that frame got from the profile it was judged by. */
  ghost predicate Judged(c: Candidate, tailRatioMax: real, accepted: seq<(Offer, Profile)>) {
    exists i :: 0 <= i < |accepted| && JudgedAt(c, tailRatioMax, accepted[i])
  }

  ghost predicate JudgedAt(c: Candidate, tailRatioMax: real, entry: (Offer, Profile)) {
    c.vectors == entry.0.vectors && c.normalcyScore == Normalcy(entry.0.distances, entry.1, tailRatioMax)
  }

  ghost predicate AllJudged(candidates: seq<Candidate>, dim: nat, tailRatioMax: real, accepted: seq<(Offer, Profile)>) {
    candidates == []
    || (AllJudged(candidates[..|candidates| - 1], dim, tailRatioMax, accepted)
        && Rectangular(candidates[|candidates| - 1].vectors, dim) && Judged(candidates[|candidates| - 1], tailRatioMax, accepted))
  }

  lemma {:induction false} JudgedAtIndex(candidates: seq<Candidate>, dim: nat, tailRatioMax: real, accepted: seq<(Offer, Profile)>, k: nat)
    requires AllJudged(candidates, dim, tailRatioMax, accepted) && k < |candidates|
    ensures Judged(candidates[k], tailRatioMax, accepted)
  {
    if k < |candidates| - 1 {
      JudgedAtIndex(candidates[..|candidates| - 1], dim, tailRatioMax, accepted, k);
    }
  }

  lemma {:induction false} JudgedStays(candidates: seq<Candidate>, dim: nat, tailRatioMax: real, accepted: seq<(Offer, Profile)>,
                                       more: (Offer, Profile))
    requires AllJudged(candidates, dim, tailRatioMax, accepted)
    ensures AllJudged(candidates, dim, tailRatioMax, accepted + [more])
  {
    if candidates != [] {
      var last := candidates[|candidates| - 1];
      JudgedStays(candidates[..|candidates| - 1], dim, tailRatioMax, accepted, more);
      var i :| 0 <= i < |accepted| && JudgedAt(last, tailRatioMax, accepted[i]);
      assert (accepted + [more])[i] == accepted[i];
    }
  }

  /** A bank in use: not empty, of the profile's dimension, no larger than the cap, and all of it trusted. */
  ghost predicate BankOk(bank: FeatureBank, dim: nat, cap: nat, initial: seq<Vector>, accepted: seq<(Offer, Profile)>) {
    && bank.dim == dim && Rectangular(bank.vectors, dim)
    && 0 < |bank.vectors| <= cap
    && AllTrusted(bank.vectors, initial, accepted)
  }

  // ---- Merging candidates into a bank ----

  function Flatten(candidates: seq<Candidate>): seq<Vector> {
    if candidates == [] then [] else Flatten(candidates[..|candidates| - 1]) + candidates[|candidates| - 1].vectors
  }

  lemma {:induction false} FlattenTrusted(candidates: seq<Candidate>, dim: nat, tailRatioMax: real,
                                          initial: seq<Vector>, accepted: seq<(Offer, Profile)>)
    requires AllJudged(candidates, dim, tailRatioMax, accepted)
    ensures Rectangular(Flatten(candidates), dim) && AllTrusted(Flatten(candidates), initial, accepted)
  {
    if candidates != [] {
      var last := candidates[|candidates| - 1];
      FlattenTrusted(candidates[..|candidates| - 1], dim, tailRatioMax, initial, accepted);
      var i :| 0 <= i < |accepted| && JudgedAt(last, tailRatioMax, accepted[i]);
      TrustedMembers(last.vectors, initial, accepted);
      TrustedFrom(Flatten(candidates), Flatten(candidates[..|candidates| - 1]), last.vectors, initial, accepted);
    }
  }

  lemma {:induction false} FlattenOrigin(candidates: seq<Candidate>, v: Vector)
    requires v in Flatten(candidates)
    ensures exists c :: c in candidates && v in c.vectors
  {
    var last := candidates[|candidates| - 1];
    if v !in last.vectors {
      FlattenOrigin(candidates[..|candidates| - 1], v);
    }
  }

  lemma VectorsOfOne(c: Candidate)
    ensures Flatten([c]) == c.vectors
  {
    assert [c][..0] == [];
    assert Flatten([c]) == Flatten([c][..0]) + c.vectors;
  }

  /** The vectors of two lists of candidates, one after the other. */
  lemma {:induction false} VectorsJoin(a: seq<Candidate>, b: seq<Candidate>)
    ensures Flatten(a + b) == Flatten(a) + Flatten(b)
  {
    if b == [] {
      assert a + b == a;
    } else {
      var front, last := b[..|b| - 1], b[|b| - 1];
      VectorsJoin(a, front);
      assert (a + b)[..|a + b| - 1] == a + front && (a + b)[|a + b| - 1] == last;
      assert Flatten(a + front) + last.vectors == Flatten(a) + (Flatten(front) + last.vectors);
    }
  }

  ghost predicate FromOffers(v: Vector, offers: seq<Offer>) {
    exists i :: 0 <= i < |offers| && v in offers[i].vectors
  }

  method FlattenCandidates(candidates: seq<Candidate>) returns (vectors: seq<Vector>)
    ensures vectors == Flatten(candidates)
  {
    vectors := [];
    for i: nat := 0 to |candidates|
      invariant vectors == Flatten(candidates[..i])
    {
      assert candidates[..i + 1][..i] == candidates[..i];
      vectors := vectors + candidates[i].vectors;
    }
    assert candidates[..|candidates|] == candidates;
  }

  /** At most `target` vectors, at equal strides; everything when there are no more than that. */
  ghost predicate IsPrefiltered(out: seq<Vector>, vectors: seq<Vector>, target: nat)
    requires target > 0
  {
    if |vectors| <= target then out == vectors
    else |out| == target && forall m :: 0 <= m < target ==> IsStrideStep(vectors, Stride(|vectors|, target), out[m], m)
  }

  method PrefilterCandidates(vectors: seq<Vector>, target: nat) returns (out: seq<Vector>)
    requires target > 0
    ensures IsPrefiltered(out, vectors, target)
  {
    if |vectors| <= target {
      return vectors;
    }
    out := [];
    var stride := Stride(|vectors|, target);
    var i: nat := 0;
    while i < target && i * stride < |vectors|
      invariant i == |out| <= target
      invariant forall m :: 0 <= m < i ==> IsStrideStep(vectors, stride, out[m], m)
      decreases target - i
    {
      assert IsStrideStep(vectors, stride, vectors[i * stride], i);
      out := out + [vectors[i * stride]];
      i := i + 1;
    }
    if i < target {
      StrideFits(|vectors|, target, i);
    }
  }

  /** When too many vectors come in, the ones kept are those at the multiples of s, the largest stride for which the target fits. */
  lemma PrefilterTakesMultiples(out: seq<Vector>, vectors: seq<Vector>, target: nat, s: nat, m: nat)
    requires 0 < target < |vectors| && IsPrefiltered(out, vectors, target)
    requires target * s <= |vectors| < target * (s + 1) && m < target
    ensures |out| == target && 0 <= m * s < |vectors| && out[m] == vectors[m * s]
  {
    StrideIs(|vectors|, target, s);
    assert IsStrideStep(vectors, s, out[m], m);
  }

  lemma PrefilteredIsPart(out: seq<Vector>, vectors: seq<Vector>, target: nat)
    requires target > 0 && IsPrefiltered(out, vectors, target)
    ensures forall v :: v in out ==> v in vectors
  {
    forall v | v in out
      ensures v in vectors
    {
      var m :| 0 <= m < |out| && out[m] == v;
      if |vectors| > target {
        assert IsStrideStep(vectors, Stride(|vectors|, target), out[m], m);
      }
    }
  }

  /** All merged vectors when they fit, otherwise the greedy coreset of the target size. */
  ghost predicate IsMerge(bank: FeatureBank, merged: seq<Vector>, dim: nat, targetSize: nat)
    requires Rectangular(merged, dim)
  {
    if |merged| <= targetSize then bank == FeatureBank(merged, dim) else IsGreedyBank(bank, merged, dim, targetSize)
  }

  lemma MergeFacts(bank: FeatureBank, merged: seq<Vector>, dim: nat, targetSize: nat)
    requires Rectangular(merged, dim) && IsMerge(bank, merged, dim, targetSize)
    ensures bank.dim == dim && Rectangular(bank.vectors, dim)
    ensures |bank.vectors| == Min(targetSize, |merged|)
    ensures forall v :: v in bank.vectors ==> v in merged
  {
    if |merged| > targetSize {
      GreedyFacts(bank, merged, dim, targetSize);
    }
  }

  function OneEmbedding(vectors: seq<Vector>, dim: nat): (slots: seq<Slot>)
    ensures Rectangular(vectors, dim) ==> Coreset.Consistent(slots)
    ensures AllOfDim(slots, dim) && AllRows(slots) == vectors
  {
    var slots := [Given(Embedding(dim, vectors))];
    assert slots[..0] == [] && AllRows([]) == [];
    slots
  }

  lemma WholeBank(bank: FeatureBank, points: seq<Vector>, dim: nat)
    requires points != [] && IsStridedBank(bank, points, dim, |points|)
    ensures bank == FeatureBank(points, dim)
  {
    forall m | 0 <= m < |points|
      ensures bank.vectors[m] == points[m]
    {
      assert IsStrideStep(points, 1, bank.vectors[m], m);
    }
  }

  /** A bank of exactly these vectors. */
  method BuildWhole(vectors: seq<Vector>, dim: nat) returns (bank: FeatureBank)
    requires vectors != [] && Rectangular(vectors, dim)
    ensures bank == FeatureBank(vectors, dim)
  {
    var r := BuildFromEmbeddings(OneEmbedding(vectors, dim), dim, |vectors|);
    WholeBank(r.value, vectors, dim);
    bank := r.value;
  }

  /** The vectors of the next bank; empty when the target size is zero. */
  method Reselect(merged: seq<Vector>, dim: nat, targetSize: nat) returns (selected: seq<Vector>)
    requires merged != [] && Rectangular(merged, dim)
    ensures Rectangular(selected, dim) && IsMerge(FeatureBank(selected, dim), merged, dim, targetSize)
  {
    if |merged| <= targetSize {
      return merged;
    }
    var r := BuildWithGreedyCoreset(OneEmbedding(merged, dim), dim, targetSize);
    selected := r.value.vectors;
    assert r.value == FeatureBank(selected, dim);
    MergeFacts(r.value, merged, dim, targetSize);
  }

  // ---- Self-validation ----

  /** The m-th position at a stride from the front. */
  function Position(m: nat, stride: nat): nat {
    m * stride
  }

  ghost function Positions(stride: nat, n: nat): set<nat> {
    set m: nat | m < n :: Position(m, stride)
  }

  /** As many positions as are sampled, at equal strides from the front. */
  ghost function SampledPositions(samples: nat, total: nat): set<nat>
    requires samples > 0 && total > 0
  {
    Positions(total / Min(samples, total), Min(samples, total))
  }

  lemma PositionsAscend(m: nat, n: nat, stride: nat)
    requires m < n && stride > 0
    ensures Position(m, stride) < Position(n, stride)
  {
    assert n * stride == m * stride + (n - m) * stride;
  }

  lemma OneMorePosition(stride: nat, n: nat)
    requires stride > 0
    ensures Positions(stride, n + 1) == Positions(stride, n) + {Position(n, stride)}
    ensures Position(n, stride) !in Positions(stride, n)
  {
    forall m: nat | m < n
      ensures Position(m, stride) != Position(n, stride)
    {
      PositionsAscend(m, n, stride);
    }
  }

  lemma {:induction false} PositionsAreDistinct(stride: nat, n: nat)
    requires stride > 0
    ensures |Positions(stride, n)| == n
  {
    if n > 0 {
      PositionsAreDistinct(stride, n - 1);
      OneMorePosition(stride, n - 1);
    } else {
      assert Positions(stride, 0) == {};
    }
  }

  lemma PositionsFit(stride: nat, n: nat, total: nat)
    requires stride > 0 && Position(n, stride) <= total
    ensures forall p :: p in Positions(stride, n) ==> p < total
  {
    forall m: nat | m < n
      ensures Position(m, stride) < total
    {
      PositionsAscend(m, n, stride);
    }
  }

  /** The sampled positions are distinct positions of the bank. */
  lemma SamplesAreDistinct(samples: nat, total: nat)
    requires samples > 0 && total > 0
    ensures |SampledPositions(samples, total)| == Min(samples, total)
    ensures forall p :: p in SampledPositions(samples, total) ==> p < total
  {
    var n := Min(samples, total);
    var stride := total / n;
    StrideFromFront(n, total);
    PositionsAreDistinct(stride, n);
    PositionsFit(stride, n, total);
  }

  /** The positions whose old vectors the new bank has nearer than the radius. */
  ghost function Near(world: World, newBank: FeatureBank, oldBank: FeatureBank, radius: real, positions: set<nat>): set<nat> {
    set p | p in positions && p < |oldBank.vectors| && (world.kth)(newBank, oldBank.vectors[p]) < radius
  }

  lemma OneMoreNear(world: World, newBank: FeatureBank, oldBank: FeatureBank, radius: real, stride: nat, i: nat)
    requires stride > 0 && Position(i, stride) < |oldBank.vectors|
    ensures |Near(world, newBank, oldBank, radius, Positions(stride, i + 1))|
         == |Near(world, newBank, oldBank, radius, Positions(stride, i))|
            + if (world.kth)(newBank, oldBank.vectors[Position(i, stride)]) < radius then 1 else 0
  {
    OneMorePosition(stride, i);
    var before, after := Near(world, newBank, oldBank, radius, Positions(stride, i)), Near(world, newBank, oldBank, radius, Positions(stride, i + 1));
    var last := Position(i, stride);
    assert after == before + (if (world.kth)(newBank, oldBank.vectors[last]) < radius then {last} else {});
  }

  function Expected(oldProfile: Profile): real {
    if oldProfile.selfNormalcy > 0.0 then oldProfile.selfNormalcy else 0.5
  }

  /** The coverage expected of a bank with that profile. */
  ghost predicate IsExpected(expected: real, profile: Profile) {
    (profile.selfNormalcy > 0.0 ==> expected == profile.selfNormalcy) && (profile.selfNormalcy <= 0.0 ==> expected == 0.5)
  }

  /** The share of the old vectors that must lie near the new bank. */
  function Required(cfg: Config, oldProfile: Profile): real {
    Expected(oldProfile) * cfg.degradationThreshold
  }

  predicate BelowShare(count: real, n: real, share: real) {
    count < share * n
  }

  /** Too few of the sampled vectors of the old bank lie near the new one. */
  ghost predicate TooFewNear(world: World, cfg: Config, newBank: FeatureBank, oldBank: FeatureBank, radius: real, oldProfile: Profile)
    requires oldBank.vectors != [] && cfg.validationSamples > 0
  {
    var sampled := SampledPositions(cfg.validationSamples, |oldBank.vectors|);
    BelowShare(|Near(world, newBank, oldBank, radius, sampled)| as real, |sampled| as real, Required(cfg, oldProfile))
  }

  lemma StrideFromFront(n: nat, total: nat)
    requires 0 < n <= total
    ensures total / n > 0 && Position(n, total / n) <= total
  {
    assert total == n * (total / n) + total % n;
  }

  lemma ShareIsRatio(count: real, n: real, share: real)
    requires n > 0.0
    ensures Ratio(count, n) < share <==> BelowShare(count, n, share)
  {
    RatioTimes(count, n);
    ScaleOrder(Ratio(count, n), share, n);
  }

  /** How many of the sampled vectors of the old bank lie near the new one. */
  method CountNear(world: World, newBank: FeatureBank, oldBank: FeatureBank, radius: real, sampleN: nat, stride: nat) returns (covered: nat)
    requires stride > 0 && Position(sampleN, stride) <= |oldBank.vectors|
    ensures covered == |Near(world, newBank, oldBank, radius, Positions(stride, sampleN))|
  {
    assert Near(world, newBank, oldBank, radius, Positions(stride, 0)) == {};
    covered := 0;
    for i: nat := 0 to sampleN
      invariant covered == |Near(world, newBank, oldBank, radius, Positions(stride, i))|
    {
      PositionsAscend(i, sampleN, stride);
      OneMoreNear(world, newBank, oldBank, radius, stride, i);
      var idx := i * stride;
      if idx >= |oldBank.vectors| {
        idx := |oldBank.vectors| - 1;
      }
      assert idx == Position(i, stride);
      if (world.kth)(newBank, oldBank.vectors[idx]) < radius {
        covered := covered + 1;
      }
    }
  }

  /** Looks up an equally spaced sample of the old vectors in the new bank. */
  method SampleCoverage(world: World, newBank: FeatureBank, oldBank: FeatureBank, radius: real, samples: nat) returns (covered: nat, sampleN: nat)
    requires oldBank.vectors != [] && samples > 0
    ensures covered == |Near(world, newBank, oldBank, radius, SampledPositions(samples, |oldBank.vectors|))|
    ensures sampleN == |SampledPositions(samples, |oldBank.vectors|)| > 0
  {
    var oldN := |oldBank.vectors|;
    sampleN := Min(samples, oldN);
    var stride := oldN / sampleN;
    StrideFromFront(sampleN, oldN);
    SamplesAreDistinct(samples, oldN);
    covered := CountNear(world, newBank, oldBank, radius, sampleN, stride);
  }

  method SelfValidate(world: World, cfg: Config, newBank: FeatureBank, oldBank: FeatureBank, newProfile: Profile, oldProfile: Profile)
    returns (degraded: bool)
    requires oldBank.vectors != [] && cfg.validationSamples > 0
    ensures degraded <==> TooFewNear(world, cfg, newBank, oldBank, newProfile.p50, oldProfile)
  {
    var covered, sampleN := SampleCoverage(world, newBank, oldBank, newProfile.p50, cfg.validationSamples);
    var oldCoverage := oldProfile.selfNormalcy;
    if oldCoverage <= 0.0 {
      oldCoverage := 0.50;
    }
    assert oldCoverage * cfg.degradationThreshold == Required(cfg, oldProfile);
    ShareIsRatio(covered as real, sampleN as real, oldCoverage * cfg.degradationThreshold);
    degraded := Ratio(covered as real, sampleN as real) < oldCoverage * cfg.degradationThreshold;
  }

  lemma SubsetSize(a: set<nat>, b: set<nat>)
    requires a <= b
    ensures |a| <= |b|
  {
    assert b == a + (b - a);
  }

  /** A sample that lies entirely near is not too few. */
  lemma AllNearIsEnough(world: World, cfg: Config, newBank: FeatureBank, oldBank: FeatureBank, radius: real, oldProfile: Profile)
    requires oldBank.vectors != [] && cfg.validationSamples > 0 && Required(cfg, oldProfile) <= 1.0
    requires forall v :: v in oldBank.vectors ==> (world.kth)(newBank, v) < radius
    ensures !TooFewNear(world, cfg, newBank, oldBank, radius, oldProfile)
  {
    var sampled := SampledPositions(cfg.validationSamples, |oldBank.vectors|);
    SamplesAreDistinct(cfg.validationSamples, |oldBank.vectors|);
    assert Near(world, newBank, oldBank, radius, sampled) == sampled;
    ShareOfAll(Required(cfg, oldProfile), |sampled| as real);
  }

  lemma ShareOfAll(share: real, n: real)
    requires share <= 1.0 && n > 0.0
    ensures !BelowShare(n, n, share)
  {
    var rest := n - share * n;
    assert rest == (1.0 - share) * n;
    if share < 1.0 {
      PositiveProduct(1.0 - share, n, rest);
    }
  }

  /** A sample of which nothing lies near is too few. */
  lemma NoneNearIsTooFew(world: World, cfg: Config, newBank: FeatureBank, oldBank: FeatureBank, radius: real, oldProfile: Profile)
    requires oldBank.vectors != [] && cfg.validationSamples > 0 && Required(cfg, oldProfile) > 0.0
    requires forall v :: v in oldBank.vectors ==> (world.kth)(newBank, v) >= radius
    ensures TooFewNear(world, cfg, newBank, oldBank, radius, oldProfile)
  {
    var sampled := SampledPositions(cfg.validationSamples, |oldBank.vectors|);
    SamplesAreDistinct(cfg.validationSamples, |oldBank.vectors|);
    assert Near(world, newBank, oldBank, radius, sampled) == {};
    ShareOfNone(Required(cfg, oldProfile), |sampled| as real);
  }

  lemma ShareOfNone(share: real, n: real)
    requires share > 0.0 && n > 0.0
    ensures BelowShare(0.0, n, share)
  {
    PositiveProduct(share, n, share * n);
  }

  /** A bank that lies at least as near everywhere does not have fewer near. */
  lemma NearerHasMore(world: World, cfg: Config, bank: FeatureBank, nearer: FeatureBank, oldBank: FeatureBank, radius: real, oldProfile: Profile)
    requires oldBank.vectors != [] && cfg.validationSamples > 0
    requires forall v :: v in oldBank.vectors ==> (world.kth)(nearer, v) <= (world.kth)(bank, v)
    ensures TooFewNear(world, cfg, nearer, oldBank, radius, oldProfile) ==> TooFewNear(world, cfg, bank, oldBank, radius, oldProfile)
  {
    var sampled := SampledPositions(cfg.validationSamples, |oldBank.vectors|);
    SubsetSize(Near(world, bank, oldBank, radius, sampled), Near(world, nearer, oldBank, radius, sampled));
  }

  function TotalNormalcy(candidates: seq<Candidate>): real {
    if candidates == [] then 0.0 else TotalNormalcy(candidates[..|candidates| - 1]) + candidates[|candidates| - 1].normalcyScore
  }

  /** Nothing to merge, or the candidates are on average not normal enough. */
  predicate GateCloses(candidates: seq<Candidate>, profile: Profile) {
    candidates == [] || TotalNormalcy(candidates) / |candidates| as real < EvolutionGate(profile)
  }

  /** The candidates all passed the consensus threshold of this profile. */
  ghost predicate NormalEnough(candidates: seq<Candidate>, profile: Profile) {
    forall i :: 0 <= i < |candidates| ==> candidates[i].normalcyScore >= ConsensusThreshold(profile)
  }

  lemma {:induction false} TotalAtLeast(candidates: seq<Candidate>, bound: real)
    requires forall i :: 0 <= i < |candidates| ==> candidates[i].normalcyScore >= bound
    ensures TotalNormalcy(candidates) >= bound * |candidates| as real
  {
    if candidates != [] {
      var n := |candidates|;
      TotalAtLeast(candidates[..n - 1], bound);
      assert bound * n as real == bound * (n - 1) as real + bound;
    }
  }

  lemma GateStaysOpen(candidates: seq<Candidate>, judge: Profile, profile: Profile)
    requires candidates != [] && NormalEnough(candidates, judge) && ConsensusThreshold(judge) >= EvolutionGate(profile)
    ensures !GateCloses(candidates, profile)
  {
    var n, total, bound := |candidates| as real, TotalNormalcy(candidates), EvolutionGate(profile);
    TotalAtLeast(candidates, bound);
    var mean := total / n;
    assert mean * n == total;
    ScaleOrder(mean, bound, n);
  }

  /** Frames judged by one profile all get through the gate of another exactly when that gate does not lie above the threshold
      they passed. A profile's own gate lies below its own threshold. */
  lemma GateStaysOpenExactlyWhen(judge: Profile, profile: Profile)
    ensures (forall candidates :: candidates != [] && NormalEnough(candidates, judge) ==> !GateCloses(candidates, profile))
            <==> ConsensusThreshold(judge) >= EvolutionGate(profile)
    ensures ConsensusThreshold(profile) >= EvolutionGate(profile)
  {
    if ConsensusThreshold(judge) >= EvolutionGate(profile) {
      forall candidates | candidates != [] && NormalEnough(candidates, judge)
        ensures !GateCloses(candidates, profile)
      {
        GateStaysOpen(candidates, judge, profile);
      }
    } else {
      var candidates := [Candidate([], ConsensusThreshold(judge))];
      assert NormalEnough(candidates, judge);
      assert TotalNormalcy(candidates) == TotalNormalcy(candidates[..0]) + ConsensusThreshold(judge);
      assert GateCloses(candidates, profile);
    }
  }

  lemma SomeoneBelowTheGate(candidates: seq<Candidate>, profile: Profile)
    requires candidates != [] && GateCloses(candidates, profile)
    ensures exists k :: 0 <= k < |candidates| && candidates[k].normalcyScore < EvolutionGate(profile)
  {
    var gate, n, total := EvolutionGate(profile), |candidates| as real, TotalNormalcy(candidates);
    var mean := total / n;
    assert mean * n == total;
    ScaleOrder(mean, gate, n);
    if forall k :: 0 <= k < |candidates| ==> candidates[k].normalcyScore >= gate {
      TotalAtLeast(candidates, gate);
    }
  }

  /** The candidate was judged by a profile whose threshold lies below the gate of this one. */
  ghost predicate StaleFor(c: Candidate, profile: Profile, tailRatioMax: real, entry: (Offer, Profile)) {
    JudgedAt(c, tailRatioMax, entry) && ConsensusThreshold(entry.1) < EvolutionGate(profile)
  }

  /** If the gate closes on frames that were all stored, one of them was judged by a profile whose threshold lies below the
      current gate: a profile that has been replaced since. */
  lemma ClosedGateIsStale(candidates: seq<Candidate>, profile: Profile, dim: nat, tailRatioMax: real, accepted: seq<(Offer, Profile)>)
    requires candidates != [] && GateCloses(candidates, profile)
    requires AllJudged(candidates, dim, tailRatioMax, accepted) && EachPassed(accepted, tailRatioMax)
    ensures exists k, i :: 0 <= k < |candidates| && 0 <= i < |accepted| && StaleFor(candidates[k], profile, tailRatioMax, accepted[i])
  {
    SomeoneBelowTheGate(candidates, profile);
    var k :| 0 <= k < |candidates| && candidates[k].normalcyScore < EvolutionGate(profile);
    JudgedAtIndex(candidates, dim, tailRatioMax, accepted, k);
    var i :| 0 <= i < |accepted| && JudgedAt(candidates[k], tailRatioMax, accepted[i]);
    PassedAtIndex(accepted, tailRatioMax, i);
    assert StaleFor(candidates[k], profile, tailRatioMax, accepted[i]);
  }

  lemma {:induction false} PassedAtIndex(accepted: seq<(Offer, Profile)>, tailRatioMax: real, i: nat)
    requires EachPassed(accepted, tailRatioMax) && i < |accepted|
    ensures Consensus(accepted[i].0, accepted[i].1, tailRatioMax)
    ensures Normalcy(accepted[i].0.distances, accepted[i].1, tailRatioMax) >= ConsensusThreshold(accepted[i].1)
  {
    if i < |accepted| - 1 {
      PassedAtIndex(accepted[..|accepted| - 1], tailRatioMax, i);
    }
  }

  method MeanNormalcy(candidates: seq<Candidate>) returns (mean: real)
    requires candidates != []
    ensures mean == TotalNormalcy(candidates) / |candidates| as real
  {
    var sum := 0.0;
    for i: nat := 0 to |candidates|
      invariant sum == TotalNormalcy(candidates[..i])
    {
      assert candidates[..i + 1][..i] == candidates[..i];
      sum := sum + candidates[i].normalcyScore;
    }
    assert candidates[..|candidates|] == candidates;
    mean := sum / |candidates| as real;
  }

  // ---- The evolving state ----

  datatype Outcome = Idle | Rejected | Swapped

  datatype RebuildResult = Nothing | Failed | Installed

  /** Where the update thread is inside its loop, or that a full rebuild is under way; detection goes on storing frames in every
      phase. */
  datatype Phase = Resting | Merging(candidates: seq<Candidate>) | Validating | Rebuilding(candidates: seq<Candidate>)

  function InHand(phase: Phase): seq<Candidate> {
    if phase.Merging? || phase.Rebuilding? then phase.candidates else []
  }

  ghost predicate EachPassed(accepted: seq<(Offer, Profile)>, tailRatioMax: real) {
    accepted == []
    || (EachPassed(accepted[..|accepted| - 1], tailRatioMax)
        && Consensus(accepted[|accepted| - 1].0, accepted[|accepted| - 1].1, tailRatioMax))
  }

  /** The settings the update code divides by. */
  predicate Usable(cfg: Config) {
    cfg.prefilter > 0 && cfg.validationSamples > 0
  }

  class Evolution {
    const cfg: Config
    const world: World
    const buffer: Buffer
    var active: Option<FeatureBank>
    var standby: Option<FeatureBank>
    var activeProfile: Profile
    var standbyProfile: Profile
    var history: seq<real>
    var saturationCount: nat
    var paused: bool
    var notified: bool
    var phase: Phase
    ghost const initial: seq<Vector>
    /** The frames stored so far, each with the profile it was judged by. */
    ghost var accepted: seq<(Offer, Profile)>

    /** Everything held is trusted; banks have the profile's dimension and fit the cap; there is no standby bank without an active one. */
    ghost predicate Vetted(candidates: seq<Candidate>, inHand: seq<Candidate>, active: Option<FeatureBank>, standby: Option<FeatureBank>,
                           dim: nat, accepted: seq<(Offer, Profile)>)
    {
      && AllJudged(candidates, dim, cfg.tailRatioMax, accepted) && AllJudged(inHand, dim, cfg.tailRatioMax, accepted)
      && EachPassed(accepted, cfg.tailRatioMax)
      && (active.Some? ==> BankOk(active.value, dim, Max(|initial|, cfg.targetSize), initial, accepted))
      && (standby.Some? ==> BankOk(standby.value, dim, Max(|initial|, cfg.targetSize), initial, accepted))
      && (standby.Some? ==> active.Some? && dim > 0)
    }

    ghost predicate Valid()
      reads this`active, this`standby, this`activeProfile, this`standbyProfile, this`history, this`saturationCount, this`paused,
            this`phase, this`accepted, buffer
    {
      match phase
      case Resting => Sound([])
      case Merging(candidates) => Sound(candidates) && candidates != []
      case Validating => Sound([]) && standby.Some? && standbyProfile.dim == activeProfile.dim
      case Rebuilding(candidates) => Sound(candidates)
    }

    /** What holds in every phase, given the candidates in the update thread's hands. */
    ghost predicate Sound(inHand: seq<Candidate>)
      reads this`active, this`standby, this`activeProfile, this`standbyProfile, this`history, this`saturationCount, this`paused,
            this`phase, this`accepted, buffer
    {
      && Usable(cfg) && ProperWorld(world) && buffer.Valid()
      && Vetted(buffer.candidates, inHand, active, standby, activeProfile.dim, accepted)
      && |history| <= WINDOW
      && (paused <==> saturationCount > 0 && saturationCount >= cfg.saturationWindow)
      && (cfg.coverageThreshold <= cfg.saturationThreshold ==> saturationCount == 0)
    }

    /** Starts from the detector's bank and clones it as the standby bank. */
    constructor (cfg: Config, limits: Limits, world: World, active: Option<FeatureBank>, profile: Profile)
      requires Usable(cfg) && ProperWorld(world)
      requires active.Some? ==> active.value.dim == profile.dim && active.value.vectors != [] && Rectangular(active.value.vectors, profile.dim)
      ensures Valid() && fresh(buffer) && this.cfg == cfg && this.world == world && buffer.limits == limits
      ensures this.active == active && activeProfile == profile && standbyProfile == profile && accepted == []
      ensures initial == if active.Some? then active.value.vectors else []
      ensures standby == if profile.dim > 0 then active else None
      ensures buffer.candidates == [] && phase == Resting
    {
      this.cfg := cfg;
      this.world := world;
      buffer := new Buffer(limits);
      this.active := active;
      activeProfile, standbyProfile := profile, profile;
      history, saturationCount, paused, notified := [], 0, false, false;
      phase := Resting;
      initial := if active.Some? then active.value.vectors else [];
      accepted := [];
      standby := None;
      new;
      InitialIsTrusted(initial);
      if profile.dim != 0 && active.Some? {
        var clone := BuildWhole(active.value.vectors, active.value.dim);
        standby := Some(clone);
      }
    }

    /** Stores a frame for the next update exactly if every signal calls it normal, it is novel, it does not complete a window of
        saturated frames, and the buffer has room. Saturated frames are counted; any other wanted frame resets the count. */
    method AssessAndOffer(o: Offer) returns (stored: bool)
      requires Valid() && Rectangular(o.vectors, activeProfile.dim)
      modifies this`saturationCount, this`paused, this`notified, this`accepted, buffer
      ensures Valid()
      ensures stored <==>
                && Wanted(cfg, o, activeProfile)
                && !(Saturated(cfg, o, activeProfile) && old(saturationCount) + 1 >= cfg.saturationWindow)
                && |old(buffer.candidates)| < buffer.limits.maxFrames
                && PatchCount(old(buffer.candidates)) + |o.vectors| <= buffer.limits.maxPatches
      ensures buffer.candidates == if stored
                then old(buffer.candidates) + [Candidate(o.vectors, Normalcy(o.distances, activeProfile, cfg.tailRatioMax))]
                else old(buffer.candidates)
      ensures accepted == if stored then old(accepted) + [(o, activeProfile)] else old(accepted)
      ensures saturationCount == if !Wanted(cfg, o, activeProfile) then old(saturationCount)
                                 else if Saturated(cfg, o, activeProfile) then old(saturationCount) + 1 else 0
    {
      var wanted, normalcy, coverage := Screen(cfg, o, activeProfile);
      if !wanted {
        return false;
      }
      var mature := CountSaturation(coverage);
      if mature {
        return false;
      }
      stored := Keep(o, Candidate(o.vectors, normalcy));
    }

    /** Counts nearly covered frames in a row; the bank is mature when the window is full. */
    method CountSaturation(coverage: real) returns (mature: bool)
      requires Valid() && coverage < cfg.coverageThreshold
      modifies this`saturationCount, this`paused
      ensures Valid()
      ensures mature <==> coverage >= cfg.saturationThreshold && old(saturationCount) + 1 >= cfg.saturationWindow
      ensures saturationCount == if coverage >= cfg.saturationThreshold then old(saturationCount) + 1 else 0
    {
      mature := false;
      if coverage >= cfg.saturationThreshold {
        saturationCount := saturationCount + 1;
        if saturationCount >= cfg.saturationWindow {
          paused := true;
          mature := true;
        }
      } else {
        saturationCount := 0;
        paused := false;
      }
    }

    method Keep(o: Offer, candidate: Candidate) returns (stored: bool)
      requires Valid() && Rectangular(o.vectors, activeProfile.dim)
      requires JudgedAt(candidate, cfg.tailRatioMax, (o, activeProfile)) && Consensus(o, activeProfile, cfg.tailRatioMax)
      modifies this`notified, this`accepted, buffer
      ensures Valid()
      ensures stored <==> |old(buffer.candidates)| < buffer.limits.maxFrames
                          && PatchCount(old(buffer.candidates)) + |candidate.vectors| <= buffer.limits.maxPatches
      ensures stored ==> buffer.candidates == old(buffer.candidates) + [candidate] && accepted == old(accepted) + [(o, activeProfile)]
      ensures !stored ==> buffer.candidates == old(buffer.candidates) && accepted == old(accepted)
    {
      AcceptOne(buffer.candidates, candidate, InHand(phase), active, standby, accepted, o, activeProfile);
      stored := Store(o, candidate);
    }

    method Store(o: Offer, candidate: Candidate) returns (stored: bool)
      requires Valid()
      requires Vetted(buffer.candidates + [candidate], InHand(phase), active, standby, activeProfile.dim, accepted + [(o, activeProfile)])
      modifies this`notified, this`accepted, buffer
      ensures Valid()
      ensures stored <==> |old(buffer.candidates)| < buffer.limits.maxFrames
                          && PatchCount(old(buffer.candidates)) + |candidate.vectors| <= buffer.limits.maxPatches
      ensures stored ==> buffer.candidates == old(buffer.candidates) + [candidate] && accepted == old(accepted) + [(o, activeProfile)]
      ensures !stored ==> buffer.candidates == old(buffer.candidates) && accepted == old(accepted)
    {
      stored := buffer.Append(candidate);
      if stored {
        accepted := accepted + [(o, activeProfile)];
        var triggered := buffer.IsTriggered();
        if triggered {
          notified := true;
        }
      }
    }

    /** Recording an accepted frame keeps everything trusted, the frame included. */
    lemma AcceptOne(before: seq<Candidate>, candidate: Candidate, inHand: seq<Candidate>, active: Option<FeatureBank>,
                    standby: Option<FeatureBank>, accepted: seq<(Offer, Profile)>, o: Offer, profile: Profile)
      requires Vetted(before, inHand, active, standby, profile.dim, accepted)
      requires JudgedAt(candidate, cfg.tailRatioMax, (o, profile))
      requires Rectangular(o.vectors, profile.dim) && Consensus(o, profile, cfg.tailRatioMax)
      ensures Vetted(before + [candidate], inHand, active, standby, profile.dim, accepted + [(o, profile)])
    {
      if active.Some? {
        TrustGrows(active.value.vectors, initial, accepted, (o, profile));
      }
      if standby.Some? {
        TrustGrows(standby.value.vectors, initial, accepted, (o, profile));
      }
      JudgedStays(before, profile.dim, cfg.tailRatioMax, accepted, (o, profile));
      JudgedStays(inHand, profile.dim, cfg.tailRatioMax, accepted, (o, profile));
      assert (accepted + [(o, profile)])[|accepted|] == (o, profile);
      assert Judged(candidate, cfg.tailRatioMax, accepted + [(o, profile)]);
      assert (before + [candidate])[..|before|] == before && (accepted + [(o, profile)])[..|accepted|] == accepted;
    }

    /** Frames in a row that are all wanted and all saturated: as many as the window has (at least one) pause the evolution, and the
        last of them is not stored. */
    method SaturationPauses(offers: seq<Offer>) returns (stored: bool)
      requires Valid() && |offers| == Max(cfg.saturationWindow, 1)
      requires forall o :: o in offers ==>
                 Rectangular(o.vectors, activeProfile.dim) && Wanted(cfg, o, activeProfile) && Saturated(cfg, o, activeProfile)
      modifies this`saturationCount, this`paused, this`notified, this`accepted, buffer
      ensures Valid() && paused && !stored && saturationCount == old(saturationCount) + |offers|
    {
      stored := true;
      for i: nat := 0 to |offers|
        invariant Valid() && saturationCount == old(saturationCount) + i
        invariant i == |offers| ==> !stored
      {
        stored := AssessAndOffer(offers[i]);
      }
    }

    /** The run exists whenever some share of patches lies between the two thresholds. */
    method PauseIsReached() returns (stored: bool)
      requires Valid() && Measured(activeProfile)
      requires cfg.saturationThreshold < cfg.coverageThreshold && 0.0 < cfg.coverageThreshold && cfg.saturationThreshold <= 1.0
      modifies this`saturationCount, this`paused, this`notified, this`accepted, buffer
      ensures Valid() && paused && !stored
    {
      var o := FindSaturatedFrame(cfg, activeProfile);
      stored := SaturationPauses(seq(Max(cfg.saturationWindow, 1), _ => o));
    }

    /** Frames that arrive one after the other while the update thread stays where it is. */
    method OfferAll(offers: seq<Offer>)
      requires Valid() && forall o :: o in offers ==> Rectangular(o.vectors, activeProfile.dim)
      modifies this`saturationCount, this`paused, this`notified, this`accepted, buffer
      ensures Valid() && old(buffer.candidates) <= buffer.candidates
      ensures forall k :: |old(buffer.candidates)| <= k < |buffer.candidates| ==> FrameOf(buffer.candidates[k], offers)
    {
      for i: nat := 0 to |offers|
        invariant Valid() && old(buffer.candidates) <= buffer.candidates
        invariant forall k :: |old(buffer.candidates)| <= k < |buffer.candidates| ==> FrameOf(buffer.candidates[k], offers)
      {
        var stored := AssessAndOffer(offers[i]);
      }
    }

    /** Records a displacement; an alarm would reset the counters and, if configured, drop the standby bank. */
    method CheckDrift(displacement: real)
      requires |history| <= WINDOW
      modifies this`history, this`saturationCount, this`paused, this`standby
      ensures history == Pushed(old(history), displacement)
      ensures if Alarm(world.sqrt, history)
              then saturationCount == 0 && !paused && standby == (if cfg.driftAutoRebuild then None else old(standby))
              else saturationCount == old(saturationCount) && paused == old(paused) && standby == old(standby)
    {
      history := Pushed(history, displacement);
      var alarm := DriftAlarm(world.sqrt, history);
      if alarm {
        saturationCount := 0;
        paused := false;
        if cfg.driftAutoRebuild {
          standby := None;
        }
      }
    }

    /** In a window this short the alarm stays off, so recording a displacement changes nothing but the history. */
    method NoteDisplacement(displacement: real)
      requires Valid()
      modifies this`history, this`saturationCount, this`paused, this`standby
      ensures Valid() && saturationCount == old(saturationCount) && paused == old(paused) && standby == old(standby)
    {
      CheckDrift(displacement);
      AlarmNeverGoesOff(world.sqrt, history);
    }

    /** The next bank is merged from the standby bank and the prefiltered candidates. */
    ghost predicate MergedFrom(bank: FeatureBank, base: FeatureBank, candidates: seq<Candidate>, dim: nat)
      requires Usable(cfg)
    {
      && bank.vectors != []
      && exists prefiltered :: IsPrefiltered(prefiltered, Flatten(candidates), cfg.prefilter)
                               && Rectangular(base.vectors + prefiltered, dim)
                               && IsMerge(bank, base.vectors + prefiltered, dim, cfg.targetSize)
    }

    /** The prefiltered vectors of all candidates. */
    method CandidateVectors(candidates: seq<Candidate>) returns (prefiltered: seq<Vector>)
      requires Usable(cfg) && AllJudged(candidates, activeProfile.dim, cfg.tailRatioMax, accepted)
      ensures IsPrefiltered(prefiltered, Flatten(candidates), cfg.prefilter)
      ensures Rectangular(prefiltered, activeProfile.dim) && AllTrusted(prefiltered, initial, accepted)
    {
      var vectors := FlattenCandidates(candidates);
      FlattenTrusted(candidates, activeProfile.dim, cfg.tailRatioMax, initial, accepted);
      prefiltered := PrefilterCandidates(vectors, cfg.prefilter);
      PrefilteredIsPart(prefiltered, vectors, cfg.prefilter);
      TrustedFrom(prefiltered, vectors, [], initial, accepted);
      RectangularMembers(prefiltered, vectors, activeProfile.dim);
    }

    /** Gate, prefilter, merge and reselect: the next bank, or None when the cycle stops before the swap. */
    method NextBank(candidates: seq<Candidate>) returns (next: Option<FeatureBank>)
      requires Valid() && activeProfile.dim > 0 && candidates != []
      requires AllJudged(candidates, activeProfile.dim, cfg.tailRatioMax, accepted)
      ensures next.None? <==> GateCloses(candidates, activeProfile) || standby.None? || cfg.targetSize == 0
      ensures next.Some? ==> MergedFrom(next.value, standby.value, candidates, activeProfile.dim)
      ensures next.Some? ==> BankOk(next.value, activeProfile.dim, Max(|initial|, cfg.targetSize), initial, accepted)
    {
      var mean := MeanNormalcy(candidates);
      if mean < EvolutionGate(activeProfile) {
        return None;
      }
      var prefiltered := CandidateVectors(candidates);
      if standby.None? {
        return None;
      }
      next := Reselected(standby.value, prefiltered);
    }

    /** Merges, reselects and builds; no bank when the target size is zero. */
    method Reselected(base: FeatureBank, prefiltered: seq<Vector>) returns (next: Option<FeatureBank>)
      requires BankOk(base, activeProfile.dim, Max(|initial|, cfg.targetSize), initial, accepted)
      requires Rectangular(prefiltered, activeProfile.dim) && AllTrusted(prefiltered, initial, accepted)
      ensures next.None? <==> cfg.targetSize == 0
      ensures Rectangular(base.vectors + prefiltered, activeProfile.dim)
      ensures next.Some? ==> next.value.vectors != [] && IsMerge(next.value, base.vectors + prefiltered, activeProfile.dim, cfg.targetSize)
      ensures next.Some? ==> BankOk(next.value, activeProfile.dim, Max(|initial|, cfg.targetSize), initial, accepted)
    {
      var dim := activeProfile.dim;
      var merged := base.vectors + prefiltered;
      TrustedFrom(merged, base.vectors, prefiltered, initial, accepted);
      var selected := Reselect(merged, dim, cfg.targetSize);
      MergeFacts(FeatureBank(selected, dim), merged, dim, cfg.targetSize);
      if selected == [] {
        return None;
      }
      var built := BuildWhole(selected, dim);
      TrustedFrom(selected, merged, [], initial, accepted);
      next := Some(built);
    }

    /** First step of a wake-up: takes all candidates out of the buffer. */
    method Drain()
      requires Valid() && phase.Resting?
      modifies this`notified, this`phase, buffer
      ensures Valid() && buffer.candidates == []
      ensures phase == if old(buffer.candidates) == [] then Resting else Merging(old(buffer.candidates))
    {
      notified := false;
      var candidates := buffer.DrainAll();
      if candidates != [] {
        phase := Merging(candidates);
      }
    }

    /** The gate of an update closes only on a frame that was judged by a profile with a lower threshold, replaced since. */
    lemma ClosedGateMetStaleFrame()
      requires Valid() && phase.Merging? && GateCloses(phase.candidates, activeProfile)
      ensures exists k, i :: 0 <= k < |phase.candidates| && 0 <= i < |accepted|
                             && StaleFor(phase.candidates[k], activeProfile, cfg.tailRatioMax, accepted[i])
                             && accepted[i].1 != activeProfile
    {
      ClosedGateIsStale(phase.candidates, activeProfile, activeProfile.dim, cfg.tailRatioMax, accepted);
    }

    /** Second step: makes the merged bank active and profiles the bank it replaces, unless the gate closes or there is nothing to
        build. */
    method Merge() returns (swapped: bool, ghost next: Option<FeatureBank>)
      requires Valid() && phase.Merging? && activeProfile.dim > 0
      modifies this`active, this`standby, this`activeProfile, this`standbyProfile, this`phase
      ensures Valid() && activeProfile.dim == old(activeProfile).dim && (old(standby).Some? ==> standby.Some?)
      ensures swapped <==> !GateCloses(old(phase).candidates, old(activeProfile)) && old(standby).Some? && cfg.targetSize > 0
      ensures !swapped ==> phase.Resting? && active == old(active) && standby == old(standby)
                           && activeProfile == old(activeProfile) && standbyProfile == old(standbyProfile)
      ensures swapped ==> phase.Validating? && next.Some? && active == next
                          && MergedFrom(next.value, old(standby).value, old(phase).candidates, old(activeProfile).dim)
                          && old(active).Some? && standby == old(active)
                          && standbyProfile == old(activeProfile) && activeProfile == (world.profile)(old(active).value, 100)
    {
      var bank := NextBank(phase.candidates);
      next := bank;
      if bank.None? {
        phase := Resting;
        return false, next;
      }
      SwapIn(bank.value);
      swapped := true;
    }

    /** Makes the new bank active and profiles the bank it replaces. */
    method SwapIn(bank: FeatureBank)
      requires Valid() && phase.Merging? && standby.Some?
      requires BankOk(bank, activeProfile.dim, Max(|initial|, cfg.targetSize), initial, accepted)
      modifies this`active, this`standby, this`activeProfile, this`standbyProfile, this`phase
      ensures Valid() && phase.Validating? && active == Some(bank) && standby == old(active) && old(active).Some?
      ensures standbyProfile == old(activeProfile) && activeProfile == (world.profile)(old(active).value, 100)
    {
      standby := active;
      active := Some(bank);
      standbyProfile := activeProfile;
      activeProfile := (world.profile)(standby.value, 100);
      phase := Validating;
    }

    /** Third step: takes the swap back if the new bank covers too little of the old one. */
    method Validate() returns (rejected: bool)
      requires Valid() && phase.Validating?
      modifies this`active, this`standby, this`activeProfile, this`history, this`saturationCount, this`paused, this`phase
      ensures Valid() && phase.Resting? && standby.Some? && activeProfile.dim == old(activeProfile).dim
      ensures old(active).Some? && old(standby).Some? && old(standby).value.vectors != []
      ensures rejected <==> cfg.selfValidation && TooFewNear(world, cfg, old(active).value, old(standby).value, old(activeProfile).p50, standbyProfile)
      ensures if rejected then active == old(standby) && standby == old(active) && activeProfile == standbyProfile
              else active == old(active) && standby == old(standby) && activeProfile == old(activeProfile)
    {
      rejected := false;
      if cfg.selfValidation {
        rejected := SelfValidate(world, cfg, active.value, standby.value, activeProfile, standbyProfile);
        if rejected {
          TakeBack();
        }
      }
      EndCycle();
    }

    /** An update ends with a displacement of zero, measured or not. */
    method EndCycle()
      requires Valid() && phase.Validating?
      modifies this`standby, this`history, this`saturationCount, this`paused, this`phase
      ensures Valid() && phase.Resting? && standby == old(standby)
    {
      phase := Resting;
      NoteDisplacement(0.0);
    }

    /** Puts the replaced bank and its profile back in use. */
    method TakeBack()
      requires Valid() && phase.Validating?
      modifies this`active, this`standby, this`activeProfile
      ensures Valid() && active == old(standby) && standby == old(active) && activeProfile == standbyProfile && standby.Some?
    {
      active, standby := standby, active;
      activeProfile := standbyProfile;
    }

    /** How a swap ends. The new profile is measured on the replaced bank. If the new bank fails validation, the replaced bank and
        its profile are back in use exactly as before and the new bank is left as the standby one. */
    ghost predicate Settles(outcome: Outcome, bank: FeatureBank, replaced: FeatureBank, profile: Profile,
                            active: Option<FeatureBank>, standby: Option<FeatureBank>, activeProfile: Profile, standbyProfile: Profile)
      requires Usable(cfg) && replaced.vectors != []
    {
      var measured := (world.profile)(replaced, 100);
      && standbyProfile == profile
      && if cfg.selfValidation && TooFewNear(world, cfg, bank, replaced, measured.p50, profile)
         then outcome.Rejected? && active == Some(replaced) && activeProfile == profile && standby == Some(bank)
         else outcome.Swapped? && active == Some(bank) && activeProfile == measured && standby == Some(replaced)
    }

    /** A swap is rejected exactly if self-validation is on and fewer of the sampled vectors lie near than the expected coverage asks for:
        the replaced bank's own normalcy, or one half when that is not known, lowered by the threshold. */
    lemma RejectedExactlyWhen(outcome: Outcome, bank: FeatureBank, replaced: FeatureBank, profile: Profile, expected: real,
                              active: Option<FeatureBank>, standby: Option<FeatureBank>, activeProfile: Profile, standbyProfile: Profile)
      requires Usable(cfg) && replaced.vectors != [] && IsExpected(expected, profile)
      requires Settles(outcome, bank, replaced, profile, active, standby, activeProfile, standbyProfile)
      ensures |SampledPositions(cfg.validationSamples, |replaced.vectors|)| == Min(cfg.validationSamples, |replaced.vectors|) > 0
      ensures var sampled := SampledPositions(cfg.validationSamples, |replaced.vectors|);
              var near := Near(world, bank, replaced, (world.profile)(replaced, 100).p50, sampled);
              outcome.Rejected? <==> cfg.selfValidation && Ratio(|near| as real, |sampled| as real) < expected * cfg.degradationThreshold
    {
      var sampled := SampledPositions(cfg.validationSamples, |replaced.vectors|);
      var near := Near(world, bank, replaced, (world.profile)(replaced, 100).p50, sampled);
      SamplesAreDistinct(cfg.validationSamples, |replaced.vectors|);
      ShareIsRatio(|near| as real, |sampled| as real, Required(cfg, profile));
    }

    /** A new bank near every vector of the replaced one is kept, and one near none of them is rejected. */
    lemma CoveringBankIsKept(outcome: Outcome, bank: FeatureBank, replaced: FeatureBank, profile: Profile, expected: real,
                             active: Option<FeatureBank>, standby: Option<FeatureBank>, activeProfile: Profile, standbyProfile: Profile)
      requires Usable(cfg) && replaced.vectors != [] && IsExpected(expected, profile)
      requires Settles(outcome, bank, replaced, profile, active, standby, activeProfile, standbyProfile)
      ensures expected * cfg.degradationThreshold <= 1.0
              && (forall v :: v in replaced.vectors ==> (world.kth)(bank, v) < (world.profile)(replaced, 100).p50) ==>
                outcome.Swapped?
      ensures cfg.selfValidation && expected * cfg.degradationThreshold > 0.0
              && (forall v :: v in replaced.vectors ==> (world.kth)(bank, v) >= (world.profile)(replaced, 100).p50) ==>
                outcome.Rejected?
    {
      var radius := (world.profile)(replaced, 100).p50;
      if Required(cfg, profile) <= 1.0 && (forall v :: v in replaced.vectors ==> (world.kth)(bank, v) < radius) {
        AllNearIsEnough(world, cfg, bank, replaced, radius, profile);
      }
      if Required(cfg, profile) > 0.0 && (forall v :: v in replaced.vectors ==> (world.kth)(bank, v) >= radius) {
        NoneNearIsTooFew(world, cfg, bank, replaced, radius, profile);
      }
    }

    /** If a bank is kept, so is every bank that lies at least as near to each vector of the replaced one. */
    lemma NearerBankIsKept(kept: FeatureBank, nearer: FeatureBank, replaced: FeatureBank, profile: Profile, outcome: Outcome,
                           active: Option<FeatureBank>, standby: Option<FeatureBank>, activeProfile: Profile, standbyProfile: Profile)
      requires Usable(cfg) && replaced.vectors != []
      requires Settles(Swapped, kept, replaced, profile, Some(kept), Some(replaced), (world.profile)(replaced, 100), profile)
      requires Settles(outcome, nearer, replaced, profile, active, standby, activeProfile, standbyProfile)
      requires forall v :: v in replaced.vectors ==> (world.kth)(nearer, v) <= (world.kth)(kept, v)
      ensures outcome.Swapped?
    {
      NearerHasMore(world, cfg, kept, nearer, replaced, (world.profile)(replaced, 100).p50, profile);
    }

    /** Drains and merges, with the frames that arrive before the swap. */
    method DrainAndMerge(beforeSwap: seq<Offer>) returns (swapped: bool, ghost next: Option<FeatureBank>)
      requires Valid() && phase.Resting? && activeProfile.dim > 0
      requires forall o :: o in beforeSwap ==> Rectangular(o.vectors, activeProfile.dim)
      modifies this, buffer
      ensures Valid() && activeProfile.dim == old(activeProfile).dim && standbyProfile == (if swapped then old(activeProfile) else old(standbyProfile))
      ensures forall c :: c in buffer.candidates ==> FrameOf(c, beforeSwap)
      ensures swapped <==> !GateCloses(old(buffer.candidates), old(activeProfile)) && old(standby).Some? && cfg.targetSize > 0
      ensures !swapped ==> phase.Resting? && active == old(active) && standby == old(standby) && activeProfile == old(activeProfile)
      ensures swapped ==> phase.Validating? && next.Some? && active == next
                          && MergedFrom(next.value, old(standby).value, old(buffer.candidates), old(activeProfile).dim)
                          && old(active).Some? && standby == old(active) && activeProfile == (world.profile)(old(active).value, 100)
    {
      Drain();
      OfferAll(beforeSwap);
      swapped, next := false, None;
      if phase.Merging? {
        swapped, next := Merge();
      }
    }

    /** One wake-up of the background thread, with the frames that arrive before the swap and before the validation. They are not part
        of this update. */
    method UpdateCycle(beforeSwap: seq<Offer>, beforeValidation: seq<Offer>) returns (outcome: Outcome, ghost next: Option<FeatureBank>)
      requires Valid() && phase.Resting? && activeProfile.dim > 0
      requires forall o :: o in beforeSwap + beforeValidation ==> Rectangular(o.vectors, activeProfile.dim)
      modifies this, buffer
      ensures Valid() && phase.Resting? && activeProfile.dim == old(activeProfile).dim
      ensures forall c :: c in buffer.candidates ==> FrameOf(c, beforeSwap) || FrameOf(c, beforeValidation)
      ensures outcome.Idle? <==> GateCloses(old(buffer.candidates), old(activeProfile)) || old(standby).None? || cfg.targetSize == 0
      ensures outcome.Idle? ==>
                active == old(active) && standby == old(standby) && activeProfile == old(activeProfile) && standbyProfile == old(standbyProfile)
      ensures !outcome.Idle? ==>
                && next.Some? && old(standby).Some?
                && MergedFrom(next.value, old(standby).value, old(buffer.candidates), old(activeProfile).dim)
                && old(active).Some? && old(active).value.vectors != []
                && Settles(outcome, next.value, old(active).value, old(activeProfile), active, standby, activeProfile, standbyProfile)
    {
      var swapped;
      swapped, next := DrainAndMerge(beforeSwap);
      OfferAll(beforeValidation);
      outcome := Idle;
      if swapped {
        outcome := Conclude(active.value, standby.value, standbyProfile);
      }
    }

    /** Validates a swap and says how it ended. */
    method Conclude(ghost bank: FeatureBank, ghost replaced: FeatureBank, ghost profile: Profile) returns (outcome: Outcome)
      requires Valid() && phase.Validating? && active == Some(bank) && standby == Some(replaced)
      requires standbyProfile == profile && activeProfile == (world.profile)(replaced, 100)
      modifies this`active, this`standby, this`activeProfile, this`history, this`saturationCount, this`paused, this`phase
      ensures Valid() && phase.Resting? && activeProfile.dim == old(activeProfile).dim && !outcome.Idle? && replaced.vectors != []
      ensures Settles(outcome, bank, replaced, profile, active, standby, activeProfile, standbyProfile)
    {
      var rejected := Validate();
      outcome := if rejected then Rejected else Swapped;
    }

    /** First step of a full rebuild: takes all candidates out of the buffer. */
    method BeginRebuild()
      requires Valid() && phase.Resting?
      modifies this`phase, buffer
      ensures Valid() && phase == Rebuilding(old(buffer.candidates)) && buffer.candidates == []
    {
      var candidates := buffer.DrainAll();
      phase := Rebuilding(candidates);
    }

    /** Second step: reselects from the standby bank and these candidates; the new bank is used only if both files were written. */
    method FinishRebuild(bankSaved: bool, profileSaved: bool) returns (r: RebuildResult)
      requires Valid() && phase.Rebuilding?
      modifies this`active, this`standby, this`activeProfile, this`standbyProfile, this`history, this`saturationCount, this`paused, this`phase
      ensures Valid() && phase.Resting? && activeProfile.dim == old(activeProfile).dim
      ensures old(standby).Some? ==> standby.Some?
      ensures !r.Installed? ==>
                active == old(active) && standby == old(standby) && activeProfile == old(activeProfile) && standbyProfile == old(standbyProfile)
      ensures r.Installed? ==> bankSaved && profileSaved && saturationCount == 0 && !paused
                               && active.Some? && standby == old(active) && standbyProfile == old(activeProfile)
                               && IsRebuilt(active.value, old(standby), old(phase).candidates, old(activeProfile).dim)
    {
      var something, bank := RebuiltBank(phase.candidates);
      phase := Resting;
      if !something {
        r := Nothing;
      } else if bank.vectors == [] || !bankSaved || !profileSaved {
        // An empty bank cannot be saved.
        r := Failed;
      } else {
        Replace(bank);
        r := Installed;
      }
    }

    /** The rebuilt bank, unless there is nothing to build it from. */
    method RebuiltBank(candidates: seq<Candidate>) returns (something: bool, bank: FeatureBank)
      requires Valid() && AllJudged(candidates, activeProfile.dim, cfg.tailRatioMax, accepted)
      ensures something ==> activeProfile.dim > 0 && IsRebuilt(bank, standby, candidates, activeProfile.dim)
      ensures something && bank.vectors != [] ==> BankOk(bank, activeProfile.dim, Max(|initial|, cfg.targetSize), initial, accepted)
    {
      something, bank := false, FeatureBank([], 0);
      if activeProfile.dim > 0 {
        var merged := MergeEverything(candidates);
        if merged != [] {
          something := true;
          bank := GreedyBank(merged);
        }
      }
    }

    /** The greedy coreset of the standby bank and all candidates. */
    ghost predicate IsRebuilt(bank: FeatureBank, standby: Option<FeatureBank>, candidates: seq<Candidate>, dim: nat) {
      var merged := (if standby.Some? then standby.value.vectors else []) + Flatten(candidates);
      Rectangular(merged, dim) && IsGreedyBank(bank, merged, dim, Min(cfg.targetSize, |merged|))
    }

    /** A full rebuild with the frames that arrive before its end; they are not part of it and stay in the buffer. */
    method FullRebuild(meanwhile: seq<Offer>, bankSaved: bool, profileSaved: bool) returns (r: RebuildResult)
      requires Valid() && phase.Resting? && forall o :: o in meanwhile ==> Rectangular(o.vectors, activeProfile.dim)
      modifies this, buffer
      ensures Valid() && phase.Resting? && activeProfile.dim == old(activeProfile).dim
      ensures forall c :: c in buffer.candidates ==> FrameOf(c, meanwhile)
      ensures old(standby).Some? ==> standby.Some?
      ensures !r.Installed? ==>
                active == old(active) && standby == old(standby) && activeProfile == old(activeProfile) && standbyProfile == old(standbyProfile)
      ensures r.Installed? ==> bankSaved && profileSaved && saturationCount == 0 && !paused
                               && active.Some? && standby == old(active) && standbyProfile == old(activeProfile)
                               && IsRebuilt(active.value, old(standby), old(buffer.candidates), old(activeProfile).dim)
    {
      BeginRebuild();
      OfferAll(meanwhile);
      r := FinishRebuild(bankSaved, profileSaved);
    }

    method MergeEverything(candidates: seq<Candidate>) returns (merged: seq<Vector>)
      requires Valid() && AllJudged(candidates, activeProfile.dim, cfg.tailRatioMax, accepted)
      ensures merged == (if standby.Some? then standby.value.vectors else []) + Flatten(candidates)
      ensures Rectangular(merged, activeProfile.dim) && AllTrusted(merged, initial, accepted)
    {
      var vectors := FlattenCandidates(candidates);
      FlattenTrusted(candidates, activeProfile.dim, cfg.tailRatioMax, initial, accepted);
      merged := (if standby.Some? then standby.value.vectors else []) + vectors;
      TrustedFrom(merged, if standby.Some? then standby.value.vectors else [], vectors, initial, accepted);
    }

    method GreedyBank(merged: seq<Vector>) returns (bank: FeatureBank)
      requires merged != [] && Rectangular(merged, activeProfile.dim) && AllTrusted(merged, initial, accepted)
      ensures IsGreedyBank(bank, merged, activeProfile.dim, Min(cfg.targetSize, |merged|))
      ensures bank.vectors != [] ==> BankOk(bank, activeProfile.dim, Max(|initial|, cfg.targetSize), initial, accepted)
    {
      var target := Min(cfg.targetSize, |merged|);
      var built := BuildWithGreedyCoreset(OneEmbedding(merged, activeProfile.dim), activeProfile.dim, target);
      bank := built.value;
      GreedyFacts(bank, merged, activeProfile.dim, target);
      TrustedFrom(bank.vectors, merged, [], initial, accepted);
    }

    method Replace(bank: FeatureBank)
      requires Valid() && phase.Resting? && activeProfile.dim > 0
      requires BankOk(bank, activeProfile.dim, Max(|initial|, cfg.targetSize), initial, accepted)
      modifies this`active, this`standby, this`activeProfile, this`standbyProfile, this`history, this`saturationCount, this`paused
      ensures Valid() && active == Some(bank) && standby == old(active)
      ensures standbyProfile == old(activeProfile) && activeProfile.dim == old(activeProfile).dim
      ensures saturationCount == 0 && !paused
    {
      var profile, displacement := Measure(bank);
      standby := active;
      active := Some(bank);
      standbyProfile := activeProfile;
      activeProfile := profile;
      NoteDisplacement(displacement);
      saturationCount, paused := 0, false;
    }

    /** The profile of a rebuilt bank, and how far its mean moved. */
    method Measure(bank: FeatureBank) returns (profile: Profile, displacement: real)
      requires ProperWorld(world) && bank.vectors != []
      ensures profile.dim == bank.dim && displacement >= 0.0
    {
      var root := (world.sqrt)(|bank.vectors| as real);
      var samples: nat := if root >= 1.0 then root.Floor else 1;
      profile := (world.profile)(bank, samples);
      displacement := 0.0;
      if activeProfile.numSamples > 0 && profile.numSamples > 0 {
        displacement := if profile.mean < activeProfile.mean then activeProfile.mean - profile.mean else profile.mean - activeProfile.mean;
      }
    }

    lemma MergeAddsNothingElse(bank: FeatureBank, base: FeatureBank, candidates: seq<Candidate>, dim: nat, v: Vector)
      requires Usable(cfg) && MergedFrom(bank, base, candidates, dim) && v in bank.vectors
      ensures v in base.vectors || v in Flatten(candidates)
    {
      var prefiltered :| IsPrefiltered(prefiltered, Flatten(candidates), cfg.prefilter)
                         && Rectangular(base.vectors + prefiltered, dim)
                         && IsMerge(bank, base.vectors + prefiltered, dim, cfg.targetSize);
      MergeFacts(bank, base.vectors + prefiltered, dim, cfg.targetSize);
      PrefilteredIsPart(prefiltered, Flatten(candidates), cfg.prefilter);
    }

    /** The standby bank an update starts from is the one before the last swap. So after two swaps the active bank holds nothing
        that the first of them added: only the bank that was active before both, and frames that arrived since the first drain. */
    method UpdateTwice(arriving: seq<seq<Offer>>) returns (first: Outcome, second: Outcome)
      requires Valid() && phase.Resting? && activeProfile.dim > 0 && |arriving| == 5
      requires forall k, o :: 0 <= k < 5 && o in arriving[k] ==> Rectangular(o.vectors, activeProfile.dim)
      modifies this, buffer
      ensures first.Swapped? && second.Swapped? ==>
                && old(active).Some? && active.Some?
                && forall v :: v in active.value.vectors ==> v in old(active).value.vectors || exists k :: 0 <= k < 3 && FromOffers(v, arriving[k])
    {
      ghost var before := active;
      ghost var next;
      first, next := UpdateCycle(arriving[0], arriving[1]);
      OfferAll(arriving[2]);
      ghost var candidates := buffer.candidates;
      second, next := UpdateCycle(arriving[3], arriving[4]);
      if first.Swapped? && second.Swapped? {
        forall v | v in active.value.vectors
          ensures v in before.value.vectors || exists k :: 0 <= k < 3 && FromOffers(v, arriving[k])
        {
          MergeAddsNothingElse(active.value, before.value, candidates, old(activeProfile).dim, v);
          if v in Flatten(candidates) {
            FlattenOrigin(candidates, v);
            FrameVector(candidates, arriving, v);
          }
        }
      }
    }

    /** Any interleaving of offers, steps of the update thread and rebuilds: banks stay trusted and bounded, and a standby bank is
        never lost. */
    method Run(events: seq<Event>)
      requires Valid() && activeProfile.dim > 0
      requires forall o :: Offered(o) in events ==> Rectangular(o.vectors, activeProfile.dim)
      modifies this, buffer
      ensures Valid() && old(accepted) <= accepted
      ensures forall i :: |old(accepted)| <= i < |accepted| ==> Offered(accepted[i].0) in events
      ensures EachPassed(accepted, cfg.tailRatioMax)
      ensures active.Some? ==> AllTrusted(active.value.vectors, initial, accepted) && |active.value.vectors| <= Max(|initial|, cfg.targetSize)
      ensures standby.Some? ==> AllTrusted(standby.value.vectors, initial, accepted) && |standby.value.vectors| <= Max(|initial|, cfg.targetSize)
      ensures old(standby).Some? ==> standby.Some? && active.Some?
    {
      for i: nat := 0 to |events|
        invariant Valid() && activeProfile.dim == old(activeProfile).dim && old(accepted) <= accepted
        invariant forall j :: |old(accepted)| <= j < |accepted| ==> Offered(accepted[j].0) in events
        invariant old(standby).Some? ==> standby.Some?
      {
        React(events[i]);
      }
    }

    /** One event. A rebuild begins only when no update is under way, and no update while it lasts. */
    method React(event: Event)
      requires Valid() && activeProfile.dim > 0
      requires event.Offered? ==> Rectangular(event.o.vectors, activeProfile.dim)
      modifies this, buffer
      ensures Valid() && activeProfile.dim == old(activeProfile).dim && (old(standby).Some? ==> standby.Some?)
      ensures accepted == old(accepted) || (event.Offered? && accepted == old(accepted) + [(event.o, old(activeProfile))])
    {
      match event {
        case Offered(o) =>
          var stored := AssessAndOffer(o);
        case UpdateStep =>
          Step();
        case RebuildBegins =>
          if phase.Resting? {
            BeginRebuild();
          }
        case RebuildEnds(bankSaved, profileSaved) =>
          if phase.Rebuilding? {
            var r := FinishRebuild(bankSaved, profileSaved);
          }
      }
    }

    /** The next step of the update thread. */
    method Step()
      requires Valid() && activeProfile.dim > 0
      modifies this`active, this`standby, this`activeProfile, this`standbyProfile, this`history, this`saturationCount, this`paused,
               this`notified, this`phase, buffer
      ensures Valid() && activeProfile.dim == old(activeProfile).dim && (old(standby).Some? ==> standby.Some?)
    {
      match phase {
        case Resting =>
          Drain();
        case Merging(_) =>
          var swapped, next := Merge();
        case Validating =>
          var rejected := Validate();
        case Rebuilding(_) =>
      }
    }
  }

  datatype Event = Offered(o: Offer) | UpdateStep | RebuildBegins | RebuildEnds(bankSaved: bool, profileSaved: bool)

  ghost predicate FrameOf(c: Candidate, offers: seq<Offer>) {
    exists i :: 0 <= i < |offers| && c.vectors == offers[i].vectors
  }

  /** A frame in which half of the patches are far away. */
  function HalfFar(): Offer {
    Offer([[0.0], [1.0]], [0.0, 1.0], 0.0, 0, "OK", 1.0, 0.0, 0.0)
  }

  lemma HalfFarIsWanted(profile: Profile)
    requires profile.numSamples > 0 && profile.p50 == 0.5 && profile.p95 == 0.5 && profile.selfNormalcy == 0.5
    ensures Normalcy(HalfFar().distances, profile, 1.0) == 0.5 && Consensus(HalfFar(), profile, 1.0)
    ensures CoverageRatio(HalfFar().distances, profile) == 0.5
  {
    var d := HalfFar().distances;
    assert d[..1] == [0.0] && d[..1][..0] == [];
    assert CountAbove(d, 0.5) == 1 && CountBelow(d, 0.5) == 1;
    RatioIs(1.0, 2.0, 0.5);
    RatioIs(0.5, 1.0, 0.5);
  }

  /** A run in which the gate closes: a frame stored after the first drain but before the swap is judged by the old profile, the
      profile measured at the swap has a higher gate, and the second update throws the frame away. */
  method LateFrameClosesTheGate(world: World) returns (e: Evolution, swapped: bool)
    requires ProperWorld(world)
    requires forall b, n {:trigger (world.profile)(b, n)} :: (world.profile)(b, n).selfNormalcy == 1.0
    ensures !swapped && e.standby.Some? && e.cfg.targetSize > 0 && e.buffer.candidates == [] && e.phase == Resting
    ensures |e.accepted| == 2 && e.accepted[1] == (HalfFar(), e.standbyProfile)
  {
    e := SwappedMeanwhile(world);
    e.Drain();
    OneCandidate(Candidate(HalfFar().vectors, 0.5), e.activeProfile);
    ghost var next;
    swapped, next := e.Merge();
  }

  method SwappedMeanwhile(world: World) returns (e: Evolution)
    requires ProperWorld(world)
    requires forall b, n {:trigger (world.profile)(b, n)} :: (world.profile)(b, n).selfNormalcy == 1.0
    ensures fresh(e) && fresh(e.buffer) && e.Valid() && e.standby.Some? && e.cfg.targetSize > 0
    ensures e.activeProfile.selfNormalcy == 1.0 && e.activeProfile.dim > 0
    ensures e.phase == Resting && e.buffer.candidates == [Candidate(HalfFar().vectors, 0.5)]
    ensures e.accepted == [(HalfFar(), e.standbyProfile), (HalfFar(), e.standbyProfile)]
  {
    e := OneFrameInHandOneInBuffer(world);
    OneCandidate(Candidate(HalfFar().vectors, 0.5), e.activeProfile);
    ghost var swapped, next;
    swapped, next := e.Merge();
    var rejected := e.Validate();
  }

  method OneFrameInHandOneInBuffer(world: World) returns (e: Evolution)
    requires ProperWorld(world)
    ensures fresh(e) && fresh(e.buffer) && e.Valid() && e.standby.Some? && e.cfg.targetSize > 0 && !e.cfg.selfValidation && e.world == world
    ensures e.activeProfile.selfNormalcy == 0.5 && e.activeProfile.dim > 0
    ensures e.phase == Merging([Candidate(HalfFar().vectors, 0.5)]) && e.buffer.candidates == [Candidate(HalfFar().vectors, 0.5)]
    ensures e.accepted == [(HalfFar(), e.activeProfile), (HalfFar(), e.activeProfile)]
  {
    var cfg := Config(5, 1.0, 0.6, 0.95, 10, 10, 10, false, 0.8, 10, false);
    var profile := Profile(1, 1, 0.5, 0.5, 0.0, 0.5);
    e := new Evolution(cfg, Limits(10, 10, 1, 1), world, Some(FeatureBank([[0.0]], 1)), profile);
    OfferHalfFar(e);
    e.Drain();
    OfferHalfFar(e);
  }

  method OfferHalfFar(e: Evolution)
    requires e.Valid() && e.activeProfile == Profile(1, 1, 0.5, 0.5, 0.0, 0.5) && e.buffer.candidates == []
    requires e.cfg.tailRatioMax == 1.0 && e.cfg.coverageThreshold == 0.6 && e.cfg.saturationThreshold == 0.95
    requires e.buffer.limits == Limits(10, 10, 1, 1)
    modifies e`saturationCount, e`paused, e`notified, e`accepted, e.buffer
    ensures e.Valid() && e.buffer.candidates == [Candidate(HalfFar().vectors, 0.5)]
    ensures e.accepted == old(e.accepted) + [(HalfFar(), e.activeProfile)]
  {
    HalfFarIsWanted(e.activeProfile);
    OneCandidate(Candidate(HalfFar().vectors, 0.5), e.activeProfile);
    var stored := e.AssessAndOffer(HalfFar());
  }

  lemma OneCandidate(c: Candidate, profile: Profile)
    ensures GateCloses([c], profile) <==> c.normalcyScore < EvolutionGate(profile)
    ensures PatchCount([c]) == |c.vectors| && PatchCount([]) == 0
  {
    assert [c][..0] == [];
    assert TotalNormalcy([c]) == TotalNormalcy([c][..0]) + c.normalcyScore;
    assert PatchCount([c]) == PatchCount([c][..0]) + |c.vectors|;
  }

  lemma FrameVector(candidates: seq<Candidate>, arriving: seq<seq<Offer>>, v: Vector)
    requires |arriving| >= 3 && exists c :: c in candidates && v in c.vectors
    requires forall c :: c in candidates ==> FrameOf(c, arriving[0]) || FrameOf(c, arriving[1]) || FrameOf(c, arriving[2])
    ensures exists k :: 0 <= k < 3 && FromOffers(v, arriving[k])
  {
    var c :| c in candidates && v in c.vectors;
    var k := if FrameOf(c, arriving[0]) then 0 else if FrameOf(c, arriving[1]) then 1 else 2;
    var i :| 0 <= i < |arriving[k]| && c.vectors == arriving[k][i].vectors;
    assert v in arriving[k][i].vectors;
  }

  lemma RectangularMembers(part: seq<Vector>, whole: seq<Vector>, dim: nat)
    requires Rectangular(whole, dim) && forall v :: v in part ==> v in whole
    ensures Rectangular(part, dim)
  {
    forall i | 0 <= i < |part|
      ensures |part[i]| == dim
    {
      assert part[i] in whole;
    }
  }

  lemma GreedyFacts(bank: FeatureBank, merged: seq<Vector>, dim: nat, target: nat)
    requires Rectangular(merged, dim) && target <= |merged| && IsGreedyBank(bank, merged, dim, target)
    ensures bank.dim == dim && Rectangular(bank.vectors, dim) && |bank.vectors| == target
    ensures forall v :: v in bank.vectors ==> v in merged
  {
    var chosen :| FurthestTraversal(merged, dim, chosen) && |chosen| >= |bank.vectors|
                  && forall t :: 0 <= t < |bank.vectors| ==> bank.vectors[t] == merged[chosen[t]];
  }
}
