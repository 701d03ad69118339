/** PCA anomaly scores (src/embedding/pca_scoring.cpp): the fast reconstruction score and the explicit reconstruction. */
module PcaScoring {
  import opened Vectors

  /** targetDim component rows of the same length as the mean. */
  datatype PcaParams = PcaParams(mean: Vector, components: seq<Vector>)

  datatype ScoreMethod = Reconstruction | Euclidean

  ghost predicate WellFormed(p: PcaParams) {
    forall t :: 0 <= t < |p.components| ==> |p.components[t]| == |p.mean|
  }

  ghost predicate Orthonormal(p: PcaParams)
    requires WellFormed(p)
  {
    forall s, t :: 0 <= s < |p.components| && 0 <= t < |p.components| ==>
                     Dot(p.components[s], p.components[t]) == if s == t then 1.0 else 0.0
  }

  /** Coordinate of the centred vector along component t. */
  ghost function Coordinate(p: PcaParams, x: Vector, t: nat): real
    requires WellFormed(p) && |x| == |p.mean| && t < |p.components|
  {
    Dot(Minus(x, p.mean), p.components[t])
  }

  /** Sum of the squared coordinates of components dropK .. t-1. */
  ghost function KeptEnergy(p: PcaParams, x: Vector, dropK: nat, t: nat): real
    requires WellFormed(p) && |x| == |p.mean| && t <= |p.components|
  {
    if t <= dropK then 0.0
    else KeptEnergy(p, x, dropK, t - 1) + Coordinate(p, x, t - 1) * Coordinate(p, x, t - 1)
  }

  /** Centred reconstruction from components dropK .. t-1. */
  ghost function Projection(p: PcaParams, x: Vector, dropK: nat, t: nat): (r: Vector)
    requires WellFormed(p) && |x| == |p.mean| && t <= |p.components|
    ensures |r| == |x|
  {
    if t <= dropK then Zeros(|x|)
    else Axpy(Projection(p, x, dropK, t - 1), Coordinate(p, x, t - 1), p.components[t - 1])
  }

  /** The vector PcaReconstruct builds. */
  ghost function Reconstructed(p: PcaParams, x: Vector, dropK: nat): (r: Vector)
    requires WellFormed(p) && |x| == |p.mean|
    ensures |r| == |x|
  {
    Axpy(Projection(p, x, dropK, |p.components|), 1.0, p.mean)
  }

  ghost function ScoreOf(p: PcaParams, x: Vector, how: ScoreMethod, dropK: nat): real
    requires WellFormed(p) && |x| == |p.mean|
  {
    var kept := KeptEnergy(p, x, dropK, |p.components|);
    if dropK >= |p.components| then 0.0
    else
      match how
      case Reconstruction => ClampedAtZero(SqDist(x, p.mean) - kept)
      case Euclidean => kept
  }

  function ClampedAtZero(x: real): real {
    if x < 0.0 then 0.0 else x
  }

  // ---- The loops ----

  method ProjectOn(p: PcaParams, x: Vector, t: nat) returns (z: real)
    requires WellFormed(p) && |x| == |p.mean| && t < |p.components|
    ensures z == Coordinate(p, x, t)
  {
    z := 0.0;
    for j := 0 to |x|
      invariant z == DotTo(Minus(x, p.mean), p.components[t], j)
    {
      z := z + (x[j] - p.mean[j]) * p.components[t][j];
    }
  }

  method KeptNorm(p: PcaParams, x: Vector, dropK: nat) returns (s: real)
    requires WellFormed(p) && |x| == |p.mean| && dropK < |p.components|
    ensures s == KeptEnergy(p, x, dropK, |p.components|)
  {
    s := 0.0;
    for t := dropK to |p.components|
      invariant s == KeptEnergy(p, x, dropK, t)
    {
      var z := ProjectOn(p, x, t);
      s := s + z * z;
    }
  }

  method Score(p: PcaParams, xs: seq<Vector>, how: ScoreMethod, dropK: nat) returns (scores: array<real>)
    requires WellFormed(p) && forall i :: 0 <= i < |xs| ==> |xs[i]| == |p.mean|
    ensures scores.Length == |xs| && fresh(scores)
    ensures forall i :: 0 <= i < |xs| ==> scores[i] == ScoreOf(p, xs[i], how, dropK)
  {
    scores := new real[|xs|](_ => 0.0);
    if dropK >= |p.components| {
      return;
    }
    for i := 0 to |xs|
      invariant forall m :: 0 <= m < i ==> scores[m] == ScoreOf(p, xs[m], how, dropK)
    {
      var kept := KeptNorm(p, xs[i], dropK);
      match how
      case Reconstruction =>
        var norm := 0.0;
        for j := 0 to |xs[i]|
          invariant norm == DotTo(Minus(xs[i], p.mean), Minus(xs[i], p.mean), j)
        {
          var x0 := xs[i][j] - p.mean[j];
          norm := norm + x0 * x0;
        }
        scores[i] := ClampedAtZero(norm - kept);
      case Euclidean =>
        scores[i] := kept;
    }
  }

  lemma ProjectionStep(p: PcaParams, x: Vector, dropK: nat, t: nat, z: real, before: Vector)
    requires WellFormed(p) && |x| == |p.mean| && t < |p.components|
    requires z == if t >= dropK then Coordinate(p, x, t) else 0.0
    requires before == Projection(p, x, dropK, t)
    ensures Axpy(before, z, p.components[t]) == Projection(p, x, dropK, t + 1)
  {
    if t < dropK {
      assert Axpy(Zeros(|x|), 0.0, p.components[t]) == Zeros(|x|);
    }
  }

  /** Adds z times a component, in place. */
  method AddScaled(recon: array<real>, z: real, component: Vector)
    requires recon.Length == |component|
    modifies recon
    ensures recon[..] == Axpy(old(recon[..]), z, component)
  {
    ghost var before := recon[..];
    ghost var after := Axpy(before, z, component);
    for j := 0 to recon.Length
      invariant forall m :: 0 <= m < recon.Length ==> recon[m] == if m < j then after[m] else before[m]
    {
      recon[j] := recon[j] + z * component[j];
    }
  }

  /** Adds the kept components one after the other, then the mean, in place. */
  method PcaReconstruct(p: PcaParams, x: Vector, dropK: nat) returns (recon: array<real>)
    requires WellFormed(p) && |x| == |p.mean|
    ensures fresh(recon) && recon[..] == Reconstructed(p, x, dropK)
  {
    recon := new real[|x|](_ => 0.0);
    for t := 0 to |p.components|
      invariant recon.Length == |x| && recon[..] == Projection(p, x, dropK, t)
    {
      var z := 0.0;
      if t >= dropK {
        z := ProjectOn(p, x, t);
      }
      ProjectionStep(p, x, dropK, t, z, recon[..]);
      AddScaled(recon, z, p.components[t]);
    }
    ghost var centred := recon[..];
    for j := 0 to |x|
      invariant forall m :: 0 <= m < |x| ==> recon[m] == if m < j then centred[m] + p.mean[m] else centred[m]
    {
      recon[j] := recon[j] + p.mean[j];
    }
  }

  // ---- The fast score is the reconstruction error ----

  /** What is left of x after taking out components dropK .. t-1. */
  ghost function Residual(p: PcaParams, x: Vector, dropK: nat, t: nat): (r: Vector)
    requires WellFormed(p) && |x| == |p.mean| && t <= |p.components|
    ensures |r| == |x|
  {
    Minus(Minus(x, p.mean), Projection(p, x, dropK, t))
  }

  lemma {:induction false} ResidualFacts(p: PcaParams, x: Vector, dropK: nat, t: nat)
    requires WellFormed(p) && Orthonormal(p) && |x| == |p.mean| && t <= |p.components|
    ensures Dot(Residual(p, x, dropK, t), Residual(p, x, dropK, t)) == SqDist(x, p.mean) - KeptEnergy(p, x, dropK, t)
    ensures forall s :: t <= s < |p.components| ==> Dot(Residual(p, x, dropK, t), p.components[s]) == Coordinate(p, x, s)
  {
    if t <= dropK {
      assert Residual(p, x, dropK, t) == Minus(x, p.mean);
    } else {
      ResidualFacts(p, x, dropK, t - 1);
      var r, c, z := Residual(p, x, dropK, t - 1), p.components[t - 1], Coordinate(p, x, t - 1);
      MinusAxpy(Minus(x, p.mean), Projection(p, x, dropK, t - 1), z, c);
      SquareOfAxpy(r, -z, c);
      forall s | t <= s < |p.components|
        ensures Dot(Residual(p, x, dropK, t), p.components[s]) == Coordinate(p, x, s)
      {
        DotToAxpy(r, -z, c, p.components[s], |x|);
      }
    }
  }

  /** With orthonormal components and at least one kept, the fast score is the squared distance between
      the vector and its explicit reconstruction; the clamp at zero never acts. */
  lemma FastScoreIsReconstructionError(p: PcaParams, x: Vector, dropK: nat)
    requires WellFormed(p) && Orthonormal(p) && |x| == |p.mean| && dropK < |p.components|
    ensures ScoreOf(p, x, Reconstruction, dropK) == SqDist(x, Reconstructed(p, x, dropK))
    ensures SqDist(x, p.mean) - KeptEnergy(p, x, dropK, |p.components|) >= 0.0
  {
    var k := |p.components|;
    ResidualFacts(p, x, dropK, k);
    assert Minus(x, Reconstructed(p, x, dropK)) == Residual(p, x, dropK, k);
    SquaresNonNegative(Residual(p, x, dropK, k), |x|);
  }

  /** Dropping every component scores 0 although the reconstruction is then the mean itself: the score is
      the reconstruction error exactly when some component is kept or the vector is the mean. */
  lemma ScoreExactlyWhen(p: PcaParams, x: Vector, dropK: nat)
    requires WellFormed(p) && Orthonormal(p) && |x| == |p.mean|
    ensures ScoreOf(p, x, Reconstruction, dropK) == SqDist(x, Reconstructed(p, x, dropK)) <==>
            dropK < |p.components| || x == p.mean
  {
    if dropK < |p.components| {
      FastScoreIsReconstructionError(p, x, dropK);
    } else {
      assert Reconstructed(p, x, dropK) == p.mean;
      SqDistZero(x, p.mean);
    }
  }

  /** The two scores split the squared distance from the mean. */
  lemma ScoresAddUp(p: PcaParams, x: Vector, dropK: nat)
    requires WellFormed(p) && Orthonormal(p) && |x| == |p.mean| && dropK < |p.components|
    ensures ScoreOf(p, x, Reconstruction, dropK) + ScoreOf(p, x, Euclidean, dropK) == SqDist(x, p.mean)
  {
    FastScoreIsReconstructionError(p, x, dropK);
  }

  // ---- Dropped components ----

  /** The same components without the first k. */
  function Without(p: PcaParams, k: nat): PcaParams
    requires k <= |p.components|
  {
    p.(components := p.components[k..])
  }

  lemma {:induction false} KeptWithout(p: PcaParams, x: Vector, k: nat, t: nat)
    requires WellFormed(p) && |x| == |p.mean| && k <= t <= |p.components|
    ensures KeptEnergy(p, x, k, t) == KeptEnergy(Without(p, k), x, 0, t - k)
    ensures Projection(p, x, k, t) == Projection(Without(p, k), x, 0, t - k)
  {
    if t > k {
      KeptWithout(p, x, k, t - 1);
      assert Without(p, k).components[t - 1 - k] == p.components[t - 1];
      assert Coordinate(Without(p, k), x, t - 1 - k) == Coordinate(p, x, t - 1);
    }
  }

  /** Dropping k components is the same as not having the first k: neither the scores nor the reconstruction depend on them. */
  lemma DroppedAreTheFirst(p: PcaParams, x: Vector, how: ScoreMethod, k: nat)
    requires WellFormed(p) && |x| == |p.mean| && k <= |p.components|
    ensures ScoreOf(p, x, how, k) == ScoreOf(Without(p, k), x, how, 0)
    ensures Reconstructed(p, x, k) == Reconstructed(Without(p, k), x, 0)
  {
    KeptWithout(p, x, k, |p.components|);
  }
}
