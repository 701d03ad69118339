/** The signals that decide whether a frame may enter the feature bank (src/detection/multi_signal_consensus.cpp and the helpers of
    src/detection/coreset_evolution.cpp), and which entries of the distance table they look at. */
module EvolutionSignals {
  import opened Vectors

  /** The profile fields the update logic reads. */
  datatype Profile = Profile(dim: nat, numSamples: nat, p50: real, p95: real, mean: real, selfNormalcy: real)

  datatype Config = Config(normalityK: nat, tailRatioMax: real, coverageThreshold: real, saturationThreshold: real,
                           saturationWindow: nat, targetSize: nat, prefilter: nat, selfValidation: bool,
                           degradationThreshold: real, validationSamples: nat, driftAutoRebuild: bool)

  // ---- The five signals ----

  /** One assessed frame with everything the consensus looks at; `distances` are the entries read from the front of the table. */
  datatype Offer = Offer(vectors: seq<Vector>, distances: seq<real>, imageScore: real, matchedRules: nat, verdict: string,
                         threshold: real, pcaScore: real, pcaP95: real)

  function CountAbove(distances: seq<real>, bound: real): (n: nat)
    ensures n <= |distances|
  {
    if distances == [] then 0
    else CountAbove(distances[..|distances| - 1], bound) + if distances[|distances| - 1] > bound then 1 else 0
  }

  function CountBelow(distances: seq<real>, bound: real): (n: nat)
    ensures n <= |distances|
  {
    if distances == [] then 0
    else CountBelow(distances[..|distances| - 1], bound) + if distances[|distances| - 1] < bound then 1 else 0
  }

  function Normalcy(distances: seq<real>, profile: Profile, tailRatioMax: real): real {
    if distances == [] || profile.numSamples == 0 then 0.0
    else
      var tailRatio := Ratio(CountAbove(distances, profile.p95) as real, |distances| as real);
      if tailRatio > 0.0 && tailRatioMax > 0.0 then
        1.0 - (if Ratio(tailRatio, tailRatioMax) < 1.0 then Ratio(tailRatio, tailRatioMax) else 1.0)
      else 1.0
  }

  lemma CountAboveIsZero(distances: seq<real>, bound: real)
    ensures CountAbove(distances, bound) == 0 <==> forall i :: 0 <= i < |distances| ==> distances[i] <= bound
  {
    if distances != [] {
      CountAboveIsZero(distances[..|distances| - 1], bound);
    }
  }

  /** The score lies between zero and one. It is one exactly when no patch is farther than the 95th percentile, or tails are
      not counted; without distances or a profile it is zero. */
  lemma NormalcyMeaning(distances: seq<real>, profile: Profile, tailRatioMax: real)
    ensures 0.0 <= Normalcy(distances, profile, tailRatioMax) <= 1.0
    ensures Normalcy(distances, profile, tailRatioMax) == 1.0 <==>
            distances != [] && profile.numSamples > 0
            && (tailRatioMax <= 0.0 || forall i :: 0 <= i < |distances| ==> distances[i] <= profile.p95)
  {
    CountAboveIsZero(distances, profile.p95);
    if distances != [] && tailRatioMax > 0.0 && CountAbove(distances, profile.p95) > 0 {
      var above, n := CountAbove(distances, profile.p95) as real, |distances| as real;
      RatioSign(above, n);
      RatioSign(Ratio(above, n), tailRatioMax);
    }
  }

  /** The patches farther than a bound, and the ones nearer. */
  ghost function Beyond(distances: seq<real>, bound: real): set<nat> {
    set i | 0 <= i < |distances| && distances[i] > bound
  }

  ghost function Inside(distances: seq<real>, bound: real): set<nat> {
    set i | 0 <= i < |distances| && distances[i] < bound
  }

  lemma {:induction false} CountAboveIsSize(distances: seq<real>, bound: real)
    ensures CountAbove(distances, bound) == |Beyond(distances, bound)|
  {
    if distances == [] {
      assert Beyond(distances, bound) == {};
    } else {
      var last, front := |distances| - 1, distances[..|distances| - 1];
      CountAboveIsSize(front, bound);
      assert Beyond(distances, bound) == Beyond(front, bound) + if distances[last] > bound then {last} else {};
    }
  }

  lemma {:induction false} CountBelowIsSize(distances: seq<real>, bound: real)
    ensures CountBelow(distances, bound) == |Inside(distances, bound)|
  {
    if distances == [] {
      assert Inside(distances, bound) == {};
    } else {
      var last, front := |distances| - 1, distances[..|distances| - 1];
      CountBelowIsSize(front, bound);
      assert Inside(distances, bound) == Inside(front, bound) + if distances[last] < bound then {last} else {};
    }
  }

  /** The largest number of far patches that still leaves some normalcy, as a real number. */
  function Tolerated(distances: seq<real>, tailRatioMax: real): real {
    tailRatioMax * |distances| as real
  }

  /** The score falls from one to zero in proportion to the number of patches beyond the 95th percentile, and is zero exactly from the
      tolerated number on. */
  lemma NormalcyFallsLinearly(distances: seq<real>, profile: Profile, tailRatioMax: real)
    requires distances != [] && profile.numSamples > 0 && tailRatioMax > 0.0
    ensures Normalcy(distances, profile, tailRatioMax) == 0.0 <==> |Beyond(distances, profile.p95)| as real >= Tolerated(distances, tailRatioMax)
    ensures |Beyond(distances, profile.p95)| as real <= Tolerated(distances, tailRatioMax) ==>
              (1.0 - Normalcy(distances, profile, tailRatioMax)) * Tolerated(distances, tailRatioMax) == |Beyond(distances, profile.p95)| as real
  {
    CountAboveIsSize(distances, profile.p95);
    var above, n := CountAbove(distances, profile.p95) as real, |distances| as real;
    PositiveProduct(tailRatioMax, n, Tolerated(distances, tailRatioMax));
    TailLoss(above, n, tailRatioMax, Tolerated(distances, tailRatioMax));
  }

  /** The share of a tail, divided by the largest share tolerated. */
  lemma TailLoss(above: real, n: real, most: real, tolerated: real)
    requires above >= 0.0 && n > 0.0 && most > 0.0 && tolerated == most * n
    ensures Ratio(Ratio(above, n), most) * tolerated == above
    ensures Ratio(above, n) > 0.0 <==> above > 0.0
    ensures Ratio(Ratio(above, n), most) >= 1.0 <==> above >= tolerated
  {
    var share := Ratio(above, n);
    var loss := Ratio(share, most);
    RatioTimes(above, n);
    RatioTimes(share, most);
    ScaleOrder(0.0, share, n);
    assert loss * (most * n) == (loss * most) * n;
    PositiveProduct(most, n, tolerated);
    AtLeastOne(loss, tolerated, above);
  }

  lemma AtLeastOne(q: real, d: real, a: real)
    requires d > 0.0 && q * d == a
    ensures q >= 1.0 <==> a >= d
  {
    var less := (q - 1.0) * d;
    assert less == a - d;
    ScaleOrder(0.0, q - 1.0, d);
  }

  /** The covered share, taken of all patches, is the number of patches nearer than the median. */
  lemma CoverageCounts(distances: seq<real>, profile: Profile)
    requires distances != []
    ensures CoverageRatio(distances, profile) * |distances| as real == |Inside(distances, profile.p50)| as real
  {
    CountBelowIsSize(distances, profile.p50);
    QuotientTimes(CountBelow(distances, profile.p50) as real, |distances| as real);
  }

  function ConsensusThreshold(profile: Profile): real {
    if profile.selfNormalcy <= 0.0 then 0.40 else profile.selfNormalcy * 0.8
  }

  function EvolutionGate(profile: Profile): real {
    if profile.selfNormalcy <= 0.0 then 0.30 else profile.selfNormalcy * 0.7
  }

  /** A frame needs four fifths of the bank's own normalcy and an update seven tenths, so seven eighths of what each frame had; a bank
      whose own normalcy is not known asks for two fifths and three quarters of that. */
  lemma ThresholdsScale(profile: Profile)
    ensures profile.selfNormalcy > 0.0 ==>
              5.0 * ConsensusThreshold(profile) == 4.0 * profile.selfNormalcy && 8.0 * EvolutionGate(profile) == 7.0 * ConsensusThreshold(profile)
    ensures profile.selfNormalcy <= 0.0 ==> 5.0 * ConsensusThreshold(profile) == 2.0 && 4.0 * EvolutionGate(profile) == 3.0 * ConsensusThreshold(profile)
  {
  }

  /** All five signals say the frame is normal. */
  predicate Consensus(o: Offer, profile: Profile, tailRatioMax: real) {
    && Normalcy(o.distances, profile, tailRatioMax) >= ConsensusThreshold(profile)
    && o.imageScore < o.threshold
    && o.matchedRules == 0
    && o.verdict == "OK"
    && !(o.pcaP95 > 0.0 && o.pcaScore >= o.pcaP95)
  }

  method MultiSignalConsensusCheck(normalcy: real, o: Offer, normalcyThreshold: real) returns (normal: bool)
    ensures normal <==> normalcy >= normalcyThreshold && o.imageScore < o.threshold && o.matchedRules == 0 && o.verdict == "OK"
                        && (o.pcaP95 <= 0.0 || o.pcaScore < o.pcaP95)
  {
    if normalcy < normalcyThreshold {
      return false;
    }
    if o.imageScore >= o.threshold {
      return false;
    }
    if o.matchedRules > 0 {
      return false;
    }
    if o.verdict != "OK" {
      return false;
    }
    if o.pcaP95 > 0.0 && o.pcaScore >= o.pcaP95 {
      return false;
    }
    normal := true;
  }

  /** The share of patches closer than the median self-distance; a frame without patches counts as fully covered. */
  function CoverageRatio(distances: seq<real>, profile: Profile): real {
    if distances == [] then 1.0 else CountBelow(distances, profile.p50) as real / |distances| as real
  }

  /** The frame passes every signal and is novel. */
  ghost predicate Wanted(cfg: Config, o: Offer, profile: Profile) {
    && o.distances != [] && o.vectors != []
    && Consensus(o, profile, cfg.tailRatioMax)
    && CoverageRatio(o.distances, profile) < cfg.coverageThreshold
  }

  /** The frame is nearly covered already. */
  ghost predicate Saturated(cfg: Config, o: Offer, profile: Profile) {
    CoverageRatio(o.distances, profile) >= cfg.saturationThreshold
  }

  /** The checks of a frame in their order, with the score and the coverage it got. */
  method Screen(cfg: Config, o: Offer, profile: Profile) returns (wanted: bool, normalcy: real, coverage: real)
    ensures wanted <==> Wanted(cfg, o, profile)
    ensures wanted ==> normalcy == Normalcy(o.distances, profile, cfg.tailRatioMax) && coverage == CoverageRatio(o.distances, profile)
  {
    wanted, normalcy, coverage := false, 0.0, 0.0;
    if o.distances == [] || o.vectors == [] {
      return;
    }
    normalcy := Normalcy(o.distances, profile, cfg.tailRatioMax);
    var consensus := MultiSignalConsensusCheck(normalcy, o, ConsensusThreshold(profile));
    if !consensus {
      return;
    }
    coverage := CoverageRatio(o.distances, profile);
    wanted := coverage < cfg.coverageThreshold;
  }

  // ---- When a frame can be both ----

  lemma {:induction false} CountOfPrefix(n: nat, c: nat, low: real, high: real, bound: real, m: nat)
    requires c <= n && m <= n && low < bound <= high
    ensures CountBelow(PatchDistances(n, c, low, high)[..m], bound) == if m < c then m else c
  {
    var d := PatchDistances(n, c, low, high);
    if m > 0 {
      CountOfPrefix(n, c, low, high, bound, m - 1);
      assert d[..m][..m - 1] == d[..m - 1] && d[..m][m - 1] == d[m - 1];
    }
  }

  /** c near patches, and far ones for the rest. */
  function PatchDistances(n: nat, c: nat, low: real, high: real): (d: seq<real>)
    ensures |d| == n
  {
    seq(n, i => if i < c then low else high)
  }

  /** A share c/n of at least lo and below hi. */
  function Share(lo: real, hi: real): (share: (nat, nat))
    requires lo < hi && 0.0 < hi && lo <= 1.0
  {
    if lo <= 0.0 then (0, 1)
    else if hi > 1.0 then (1, 1)
    else
      Gap(lo, hi);
      var n := (1.0 / (hi - lo)).Floor + 1;
      (-((-(lo * n as real)).Floor), n)
  }

  lemma Gap(lo: real, hi: real)
    requires 0.0 < lo < hi
    ensures var n := (1.0 / (hi - lo)).Floor + 1; n > 0 && lo * n as real > 0.0 && lo * n as real + 1.0 < hi * n as real
    ensures var n := (1.0 / (hi - lo)).Floor + 1; (-(lo * n as real)).Floor <= 0
  {
    var gap := hi - lo;
    var q := 1.0 / gap;
    QuotientTimes(1.0, gap);
    RatioSign(1.0, gap);
    var n := q.Floor + 1;
    ScaleOrder(q, n as real, gap);
    PositiveProduct(lo, n as real, lo * n as real);
    Distribute(hi, lo, n as real);
  }

  lemma Distribute(a: real, b: real, d: real)
    ensures d * (a - b) == a * d - b * d
  {
  }

  lemma Ceiling(x: real)
    ensures x <= -((-x).Floor) as real < x + 1.0
  {
  }

  lemma ShareBetween(lo: real, hi: real)
    requires lo < hi && 0.0 < hi && lo <= 1.0
    ensures var (c, n) := Share(lo, hi); 0 < n && c <= n && lo * n as real <= c as real < hi * n as real
  {
    if 0.0 < lo && hi <= 1.0 {
      Gap(lo, hi);
      var n := (1.0 / (hi - lo)).Floor + 1;
      Ceiling(lo * n as real);
      ScaleOrder(lo, 1.0, n as real);
    }
  }

  /** A frame whose coverage lies between the two thresholds: its near patches coincide with bank vectors. */
  function SaturatedFrame(cfg: Config, profile: Profile): Offer
    requires cfg.saturationThreshold < cfg.coverageThreshold && 0.0 < cfg.coverageThreshold && cfg.saturationThreshold <= 1.0
  {
    var (c, n) := Share(cfg.saturationThreshold, cfg.coverageThreshold);
    Offer(seq(n, i => Zeros(profile.dim)), PatchDistances(n, c, 0.0, profile.p50), 0.0, 0, "OK", 1.0, 0.0, 0.0)
  }

  /** What a profile measured on a bank of different vectors looks like. */
  predicate Measured(profile: Profile) {
    profile.numSamples > 0 && 0.0 < profile.p50 <= profile.p95 && ConsensusThreshold(profile) <= 1.0
  }

  lemma SaturatedFrameFits(cfg: Config, profile: Profile)
    requires cfg.saturationThreshold < cfg.coverageThreshold && 0.0 < cfg.coverageThreshold && cfg.saturationThreshold <= 1.0
    requires Measured(profile)
    ensures var o := SaturatedFrame(cfg, profile);
            Wanted(cfg, o, profile) && Saturated(cfg, o, profile) && IsFrame(o, profile)
  {
    var o := SaturatedFrame(cfg, profile);
    var (c, n) := Share(cfg.saturationThreshold, cfg.coverageThreshold);
    ShareBetween(cfg.saturationThreshold, cfg.coverageThreshold);
    CountOfPrefix(n, c, 0.0, profile.p50, profile.p50, n);
    assert o.distances[..n] == o.distances;
    NormalcyMeaning(o.distances, profile, cfg.tailRatioMax);
    CoveredShare(o.distances, profile, c, n, cfg.saturationThreshold, cfg.coverageThreshold);
  }

  lemma CoveredShare(distances: seq<real>, profile: Profile, c: nat, n: nat, lo: real, hi: real)
    requires n > 0 && |distances| == n && CountBelow(distances, profile.p50) == c && lo * n as real <= c as real < hi * n as real
    ensures lo <= CoverageRatio(distances, profile) < hi
  {
    QuotientBetween(c as real, n as real, lo, hi);
  }

  lemma QuotientBetween(c: real, n: real, lo: real, hi: real)
    requires n > 0.0 && lo * n <= c < hi * n
    ensures lo <= c / n < hi
  {
    QuotientTimes(c, n);
    ScaleOrder(c / n, lo, n);
    ScaleOrder(c / n, hi, n);
  }

  /** One vector of the bank's dimension and one distance for each patch. */
  ghost predicate IsFrame(o: Offer, profile: Profile) {
    |o.vectors| == |o.distances| && Rectangular(o.vectors, profile.dim) && forall i :: 0 <= i < |o.distances| ==> o.distances[i] >= 0.0
  }

  lemma CoverageBetween(distances: seq<real>, profile: Profile)
    requires distances != []
    ensures 0.0 <= CoverageRatio(distances, profile) <= 1.0
  {
    var c, n := CountBelow(distances, profile.p50) as real, |distances| as real;
    QuotientBetween(c, n, 0.0, 2.0);
    QuotientTimes(c, n);
    ScaleOrder(1.0, c / n, n);
  }

  method FindSaturatedFrame(cfg: Config, profile: Profile) returns (o: Offer)
    requires cfg.saturationThreshold < cfg.coverageThreshold && 0.0 < cfg.coverageThreshold && cfg.saturationThreshold <= 1.0
    requires Measured(profile)
    ensures Wanted(cfg, o, profile) && Saturated(cfg, o, profile) && IsFrame(o, profile)
  {
    SaturatedFrameFits(cfg, profile);
    o := SaturatedFrame(cfg, profile);
  }

  /** Some frame counts towards saturation exactly if some share of patches lies between the two thresholds. */
  lemma SaturationReachableExactlyWhen(cfg: Config, profile: Profile)
    requires Measured(profile)
    ensures (exists o :: Wanted(cfg, o, profile) && Saturated(cfg, o, profile) && IsFrame(o, profile)) <==>
            cfg.saturationThreshold < cfg.coverageThreshold && 0.0 < cfg.coverageThreshold && cfg.saturationThreshold <= 1.0
  {
    if o :| Wanted(cfg, o, profile) && Saturated(cfg, o, profile) && IsFrame(o, profile) {
      CoverageBetween(o.distances, profile);
    }
    if cfg.saturationThreshold < cfg.coverageThreshold && 0.0 < cfg.coverageThreshold && cfg.saturationThreshold <= 1.0 {
      SaturatedFrameFits(cfg, profile);
    }
  }

  // ---- Which distances are looked at ----

  /** What detection hands over: for every patch a row with the distances to its k nearest bank vectors. */
  datatype Table = Table(knn: seq<real>, k: nat, count: nat)
  {
    /** The j-th nearest distance of patch i. */
    function At(i: nat, j: nat): real {
      if i * k + j < |knn| then knn[i * k + j] else 0.0
    }

    /** One ascending row for each patch. */
    ghost predicate Proper() {
      && k > 0 && |knn| == count * k
      && forall i: nat, j: nat :: i < count && j + 1 < k ==> At(i, j) <= At(i, j + 1)
    }

    /** As many entries as there are patches, from the front: the row length is passed along and ignored. */
    function Front(): (front: seq<real>)
      ensures |knn| >= count ==> |front| == count
    {
      if count <= |knn| then knn[..count] else knn
    }

    /** The j-th nearest distance of every patch. */
    function Own(j: nat): (own: seq<real>)
      ensures |own| == count && forall i :: 0 <= i < count ==> own[i] == At(i, j)
    {
      seq(count, i requires 0 <= i < count => At(i, j))
    }
  }

  /** Near entries before position s, far ones from there on. */
  function FarFrom(k: nat, n: nat, s: nat, edge: real): Table {
    Table(seq(n * k, i => if i < s then edge else edge + 1.0), k, n)
  }

  lemma FarFromIsProper(k: nat, n: nat, s: nat, edge: real)
    requires k > 0
    ensures FarFrom(k, n, s, edge).Proper()
  {
    var t := FarFrom(k, n, s, edge);
    forall i: nat, j: nat | i < n && j + 1 < k
      ensures t.At(i, j) <= t.At(i, j + 1)
    {
      InTable(i, j + 1, k, n);
    }
  }

  lemma {:induction false} InTable(i: nat, j: nat, k: nat, n: nat)
    requires i < n && j < k
    ensures i * k + j < n * k
  {
    assert n * k == (n - 1) * k + k;
    if i < n - 1 {
      InTable(i, j, k, n - 1);
    }
  }

  /** Where the far part begins so that the front misses it and the last patch has it. */
  function FarStart(k: nat, n: nat): (s: nat)
    requires n > 0
  {
    if n == 1 then 1 else (n - 1) * k
  }

  lemma FrontFits(k: nat, n: nat)
    requires k > 1 && n > 0
    ensures n <= n * k && (n > 1 ==> n <= (n - 1) * k)
  {
    TwiceFits(n, k);
    TwiceFits(n - 1, k);
  }

  lemma TwiceFits(a: nat, k: nat)
    requires k > 1
    ensures 2 * a <= a * k
  {
    if a > 0 {
      TwiceFits(a - 1, k);
      assert a * k == (a - 1) * k + k;
    }
  }

  lemma FrontMissesLastPatch(k: nat, n: nat, j: nat, profile: Profile, tailRatioMax: real)
    requires k > 1 && n > 0 && j < k && (n == 1 ==> j > 0) && profile.numSamples > 0 && tailRatioMax > 0.0
    ensures var t := FarFrom(k, n, FarStart(k, n), profile.p95);
            t.Proper() && Normalcy(t.Front(), profile, tailRatioMax) == 1.0 && Normalcy(t.Own(j), profile, tailRatioMax) < 1.0
  {
    var t := FarFrom(k, n, FarStart(k, n), profile.p95);
    FarFromIsProper(k, n, FarStart(k, n), profile.p95);
    InTable(n - 1, j, k, n);
    FrontFits(k, n);
    NormalcyMeaning(t.Front(), profile, tailRatioMax);
    assert t.Own(j)[n - 1] == profile.p95 + 1.0;
    NormalcyMeaning(t.Own(j), profile, tailRatioMax);
  }

  lemma FrontIsOwn(t: Table, j: nat)
    requires t.Proper() && j < t.k && (t.k == 1 || t.count == 0 || (t.count == 1 && j == 0))
    ensures t.Front() == t.Own(j)
  {
    forall i | 0 <= i < t.count
      ensures t.Front()[i] == t.Own(j)[i]
    {
      InTable(i, j, t.k, t.count);
    }
  }

  ghost predicate SameScore(t: Table, j: nat, profile: Profile, tailRatioMax: real) {
    Normalcy(t.Front(), profile, tailRatioMax) == Normalcy(t.Own(j), profile, tailRatioMax)
  }

  /** The score is that of the patches' own distances exactly if the rows have one entry each (or there is one patch at most): with
      longer rows the front belongs to the first patches only. */
  lemma ScoreLooksAtEveryPatchExactlyWhen(k: nat, n: nat, j: nat, profile: Profile, tailRatioMax: real)
    requires j < k && profile.numSamples > 0 && tailRatioMax > 0.0
    ensures (forall t: Table :: t.Proper() && t.k == k && t.count == n ==> SameScore(t, j, profile, tailRatioMax))
       <==> k == 1 || n == 0 || (n == 1 && j == 0)
  {
    if k == 1 || n == 0 || (n == 1 && j == 0) {
      forall t: Table | t.Proper() && t.k == k && t.count == n
        ensures SameScore(t, j, profile, tailRatioMax)
      {
        FrontIsOwn(t, j);
      }
    } else {
      FrontMissesLastPatch(k, n, j, profile, tailRatioMax);
      assert !SameScore(FarFrom(k, n, FarStart(k, n), profile.p95), j, profile, tailRatioMax);
    }
  }
}
