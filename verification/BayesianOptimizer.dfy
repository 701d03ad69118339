/** Gaussian-process surrogate (src/tuning/bayesian_optimizer.cpp): kernel matrix, cached factor, prediction. */
module BayesianOptimizer {
  import opened Vectors
  import opened Cholesky

  datatype OptimizationPoint = OptimizationPoint(params: Vector, cost: real)

  datatype Config = Config(noiseLevel: real, kernelSigma2: real, kernelLength: real, jitter: real)

  ghost predicate SameDimension(points: seq<OptimizationPoint>, d: nat) {
    forall i :: 0 <= i < |points| ==> |points[i].params| == d
  }

  function Exponent(sqDist: real, length: real): real
    requires length != 0.0
  {
    LengthNonZero(length);
    -sqDist / (2.0 * length * length)
  }

  ghost function Rbf(exp: real -> real, sigma2: real, length: real, x: Vector, y: Vector): real
    requires |x| == |y| && length != 0.0
  {
    sigma2 * exp(Exponent(SqDist(x, y), length))
  }

  lemma LengthNonZero(length: real)
    requires length != 0.0
    ensures 2.0 * length * length != 0.0
  {
    var q := length * length;
    SquareSign(length, q);
    assert 2.0 * length * length == 2.0 * q;
  }

  /** The kernel matrix with `extra` on the diagonal. */
  ghost function Kernel(exp: real -> real, sigma2: real, length: real, points: seq<OptimizationPoint>, d: nat, extra: real): (k: Matrix)
    requires SameDimension(points, d) && length != 0.0
    ensures Square(k, |points|)
  {
    seq(|points|, i requires 0 <= i < |points| =>
          seq(|points|, j requires 0 <= j < |points| =>
                Rbf(exp, sigma2, length, points[i].params, points[j].params) + if i == j then extra else 0.0))
  }

  /** The kernel values between a point and the observed ones. */
  ghost function KernelRow(exp: real -> real, sigma2: real, length: real, points: seq<OptimizationPoint>, point: Vector): (v: Vector)
    requires SameDimension(points, |point|) && length != 0.0
    ensures |v| == |points|
  {
    seq(|points|, i requires 0 <= i < |points| => Rbf(exp, sigma2, length, point, points[i].params))
  }

  lemma SqDistSymmetric(x: Vector, y: Vector)
    requires |x| == |y|
    ensures SqDist(x, y) == SqDist(y, x)
  {
    SqDistSymmetricTo(x, y, |x|);
  }

  lemma {:induction false} SqDistSymmetricTo(x: Vector, y: Vector, n: nat)
    requires |x| == |y| && n <= |x|
    ensures DotTo(Minus(x, y), Minus(x, y), n) == DotTo(Minus(y, x), Minus(y, x), n)
  {
    if n > 0 {
      SqDistSymmetricTo(x, y, n - 1);
      var a := x[n - 1] - y[n - 1];
      assert a * a == (-a) * (-a);
    }
  }

  lemma KernelSymmetric(exp: real -> real, sigma2: real, length: real, points: seq<OptimizationPoint>, d: nat, extra: real)
    requires SameDimension(points, d) && length != 0.0
    ensures Symmetric(Kernel(exp, sigma2, length, points, d, extra), |points|)
  {
    forall i, j | 0 <= i < |points| && 0 <= j < |points|
      ensures Rbf(exp, sigma2, length, points[i].params, points[j].params) == Rbf(exp, sigma2, length, points[j].params, points[i].params)
    {
      SqDistSymmetric(points[i].params, points[j].params);
    }
  }

  // ---- Correlation falls with distance ----

  /** q is -d / 2 length^2. */
  ghost predicate IsExponent(q: real, sqDist: real, length: real) {
    q * Scale(length) == -sqDist
  }

  function Scale(length: real): real {
    2.0 * (length * length)
  }

  lemma ScaleIsPositive(length: real)
    requires length != 0.0
    ensures Scale(length) > 0.0
  {
    SquareSign(length, length * length);
  }

  lemma ExponentIs(sqDist: real, length: real, q: real)
    requires length != 0.0
    ensures IsExponent(q, sqDist, length) <==> q == Exponent(sqDist, length)
  {
    LengthNonZero(length);
    ScaleIsPositive(length);
    var e, s := Exponent(sqDist, length), 2.0 * length * length;
    assert s == Scale(length);
    QuotientTimes(-sqDist, s);
    ScaleOrder(q, e, Scale(length));
  }

  lemma ExponentFalls(d: real, e: real, length: real)
    requires length != 0.0 && d < e
    ensures Exponent(e, length) < Exponent(d, length)
  {
    ScaleIsPositive(length);
    ExponentIs(d, length, Exponent(d, length));
    ExponentIs(e, length, Exponent(e, length));
    ScaleOrder(Exponent(e, length), Exponent(d, length), Scale(length));
  }

  lemma ExponentOfZero(length: real)
    requires length != 0.0
    ensures Exponent(0.0, length) == 0.0
  {
    ExponentIs(0.0, length, 0.0);
  }

  /** The nearer of two observed points gets the larger kernel value. */
  lemma NearerIsLarger(exp: real -> real, sigma2: real, length: real, points: seq<OptimizationPoint>, point: Vector, i: nat, j: nat)
    requires SameDimension(points, |point|) && length != 0.0 && sigma2 > 0.0 && IsIncreasing(exp) && i < |points| && j < |points|
    requires SqDist(point, points[i].params) < SqDist(point, points[j].params)
    ensures KernelRow(exp, sigma2, length, points, point)[i] > KernelRow(exp, sigma2, length, points, point)[j]
  {
    var d, e := SqDist(point, points[i].params), SqDist(point, points[j].params);
    ExponentFalls(d, e, length);
    ScaleOrder(exp(Exponent(e, length)), exp(Exponent(d, length)), sigma2);
  }

  /** A kernel value is exactly the prior variance times exp(-d / 2 length^2). */
  lemma KernelValueIs(exp: real -> real, sigma2: real, length: real, points: seq<OptimizationPoint>, point: Vector, i: nat, q: real)
    requires SameDimension(points, |point|) && length != 0.0 && i < |points|
    requires IsExponent(q, SqDist(point, points[i].params), length)
    ensures KernelRow(exp, sigma2, length, points, point)[i] == sigma2 * exp(q)
  {
    ExponentIs(SqDist(point, points[i].params), length, q);
  }

  /** At a squared distance of 2 length^2 a kernel value is down by exp(-1). */
  lemma KernelValueOneStepOut(exp: real -> real, sigma2: real, length: real, points: seq<OptimizationPoint>, point: Vector, i: nat)
    requires SameDimension(points, |point|) && length != 0.0 && i < |points|
    requires SqDist(point, points[i].params) == 2.0 * (length * length)
    ensures KernelRow(exp, sigma2, length, points, point)[i] == sigma2 * exp(-1.0)
  {
    KernelValueIs(exp, sigma2, length, points, point, i, -1.0);
  }

  /** The factor between the prior variance and a kernel value is in (0, 1], and one only at the point itself. */
  lemma CorrelationOf(exp: real -> real, sigma2: real, length: real, points: seq<OptimizationPoint>, point: Vector, i: nat) returns (rho: real)
    requires SameDimension(points, |point|) && length != 0.0 && i < |points|
    requires IsPositive(exp) && IsIncreasing(exp) && exp(0.0) == 1.0
    ensures KernelRow(exp, sigma2, length, points, point)[i] == sigma2 * rho
    ensures 0.0 < rho <= 1.0 && (rho == 1.0 <==> point == points[i].params)
  {
    var d := SqDist(point, points[i].params);
    rho := exp(Exponent(d, length));
    SqDistZero(point, points[i].params);
    ExponentOfZero(length);
    if d > 0.0 {
      ExponentFalls(0.0, d, length);
    }
  }

  /** No kernel value exceeds the prior variance, which is reached only at the point itself. */
  lemma KernelValuesBounded(exp: real -> real, sigma2: real, length: real, points: seq<OptimizationPoint>, point: Vector, i: nat)
    requires SameDimension(points, |point|) && length != 0.0 && sigma2 > 0.0 && i < |points|
    requires IsPositive(exp) && IsIncreasing(exp) && exp(0.0) == 1.0
    ensures 0.0 < KernelRow(exp, sigma2, length, points, point)[i] <= sigma2
    ensures KernelRow(exp, sigma2, length, points, point)[i] == sigma2 <==> point == points[i].params
  {
    var rho := CorrelationOf(exp, sigma2, length, points, point, i);
    ScaleOrder(0.0, rho, sigma2);
    ScaleOrder(rho, 1.0, sigma2);
  }

  /** Row i of the kernel matrix holds the kernel values of point i, with `extra` added to its own. */
  lemma MatrixRowsAreKernelRows(exp: real -> real, sigma2: real, length: real, points: seq<OptimizationPoint>, d: nat, extra: real, i: nat)
    requires SameDimension(points, d) && length != 0.0 && i < |points| && exp(0.0) == 1.0
    ensures Kernel(exp, sigma2, length, points, d, extra)[i]
         == KernelRow(exp, sigma2, length, points, points[i].params)[i := sigma2 + extra]
  {
    SqDistZero(points[i].params, points[i].params);
    ExponentOfZero(length);
  }

  function Costs(points: seq<OptimizationPoint>): Vector {
    seq(|points|, i requires 0 <= i < |points| => points[i].cost)
  }

  /** The diagonal jitter of the k-th attempt: five attempts a factor ten apart, then a last one two steps further. */
  function JitterAt(jitter: real, attempt: nat): real {
    if attempt == 0 then jitter
    else if attempt == 5 then JitterAt(jitter, 4) * 10.0 * 10.0
    else JitterAt(jitter, attempt - 1) * 10.0
  }

  /** From the first to the last attempt the jitter grows by a factor of a million. */
  lemma JitterSpans(jitter: real)
    ensures JitterAt(jitter, 0) == jitter && JitterAt(jitter, 4) == 10000.0 * jitter && JitterAt(jitter, 5) == 1000000.0 * jitter
  {
    assert JitterAt(jitter, 1) == 10.0 * jitter;
    assert JitterAt(jitter, 2) == 100.0 * jitter;
    assert JitterAt(jitter, 3) == 1000.0 * jitter;
  }

  /** Factors a matrix and, on success, solves the system with the factor. */
  method FactorAndSolve(k: Matrix, b: Vector, n: nat, sqrt: real -> real) returns (ok: bool, l: Matrix, x: Vector)
    requires IsSquareRoot(sqrt) && Square(k, n) && Symmetric(k, n) && |b| == n
    ensures ok <==> PositiveDefinite(k, n)
    ensures ok ==> IsFactor(l, k, n) && |x| == n && Times(k, x, n) == b
  {
    ok, l := CholeskyDecompose(k, n, sqrt);
    x := [];
    if ok {
      x := SolveCholesky(l, b, n);
      SolutionOfFactor(l, k, x, b, n);
    }
  }

  class Surrogate {
    const exp: real -> real
    const sqrt: real -> real
    const config: Config
    ghost const dim: nat
    var observations: seq<OptimizationPoint>
    var sigma2: real
    var length: real
    var cachedL: Matrix
    var cachedAlpha: Vector
    var cacheValid: bool

    ghost predicate Ready()
      reads this`observations, this`sigma2, this`length
    {
      IsPositive(exp) && IsSquareRoot(sqrt) && length != 0.0 && sigma2 >= 0.0 && SameDimension(observations, dim)
    }

    /** The matrix factored by the given attempt. */
    ghost function Jittered(attempt: nat): (k: Matrix)
      reads this`observations, this`sigma2, this`length
      requires Ready()
      ensures Square(k, |observations|)
    {
      Kernel(exp, sigma2, length, observations, dim, config.noiseLevel + JitterAt(config.jitter, attempt))
    }

    /** The cache holds the factor of the attempt's matrix and the solution for the observed costs. */
    ghost predicate CacheFor(attempt: nat)
      reads this`observations, this`sigma2, this`length, this`cachedL, this`cachedAlpha
      requires Ready()
    {
      var n := |observations|;
      IsFactor(cachedL, Jittered(attempt), n) && |cachedAlpha| == n && Times(Jittered(attempt), cachedAlpha, n) == Costs(observations)
    }

    /** The attempt is the first whose matrix is positive definite. */
    ghost predicate FirstToSucceed(attempt: nat)
      reads this`observations, this`sigma2, this`length
      requires Ready()
    {
      && attempt <= 5 && PositiveDefinite(Jittered(attempt), |observations|)
      && forall a :: 0 <= a < attempt ==> !PositiveDefinite(Jittered(a), |observations|)
    }

    ghost predicate Valid()
      reads this
    {
      Ready() && (cacheValid && observations != [] ==> exists a :: FirstToSucceed(a) && CacheFor(a))
    }

    constructor (config: Config, exp: real -> real, sqrt: real -> real, ghost dim: nat)
      requires IsPositive(exp) && IsSquareRoot(sqrt) && config.kernelLength != 0.0 && config.kernelSigma2 >= 0.0
      ensures Valid() && observations == [] && this.config == config && this.exp == exp && this.sqrt == sqrt && this.dim == dim
    {
      this.config, this.exp, this.sqrt, this.dim := config, exp, sqrt, dim;
      observations, cachedL, cachedAlpha, cacheValid := [], [], [], false;
      sigma2, length := config.kernelSigma2, config.kernelLength;
    }

    method AddObservation(point: OptimizationPoint)
      requires Valid() && |point.params| == dim
      modifies this
      ensures Valid() && observations == old(observations) + [point] && sigma2 == old(sigma2) && length == old(length)
      ensures !cacheValid
    {
      observations := observations + [point];
      cacheValid := false;
    }

    /** The last step of hyper-parameter fitting: new values are adopted and the cache is dropped. */
    method AdoptHyperparameters(logSigma2: real, logLength: real)
      requires Valid()
      modifies this
      ensures Valid() && observations == old(observations) && !cacheValid
      ensures sigma2 == exp(logSigma2) && length == exp(logLength)
    {
      sigma2, length := exp(logSigma2), exp(logLength);
      cacheValid := false;
    }

    method RbfKernel(x: Vector, y: Vector) returns (value: real)
      requires Ready() && |x| == |y|
      ensures value == Rbf(exp, sigma2, length, x, y)
    {
      var d := SquaredDistance(x, y);
      value := sigma2 * exp(Exponent(d, length));
    }

    /** Fills the lower triangle and mirrors every entry; then noise and jitter go on the diagonal. */
    method BuildKernelMatrix(extra: real) returns (k: Matrix)
      requires Ready()
      ensures k == Kernel(exp, sigma2, length, observations, dim, extra)
    {
      var n := |observations|;
      k := seq(n, _ => seq(n, _ => 0.0));
      for i := 0 to n
        invariant Square(k, n)
        invariant forall a, b :: 0 <= a < i && 0 <= b < i ==> k[a][b] == Kernel(exp, sigma2, length, observations, dim, extra)[a][b]
      {
        k := FillRow(k, i, extra);
      }
      forall a | 0 <= a < n
        ensures k[a] == Kernel(exp, sigma2, length, observations, dim, extra)[a]
      {
      }
    }

    method FillRow(start: Matrix, i: nat, extra: real) returns (k: Matrix)
      requires Ready() && Square(start, |observations|) && i < |observations|
      requires forall a, b :: 0 <= a < i && 0 <= b < i ==> start[a][b] == Kernel(exp, sigma2, length, observations, dim, extra)[a][b]
      ensures Square(k, |observations|)
      ensures forall a, b :: 0 <= a <= i && 0 <= b <= i ==> k[a][b] == Kernel(exp, sigma2, length, observations, dim, extra)[a][b]
    {
      ghost var full := Kernel(exp, sigma2, length, observations, dim, extra);
      KernelSymmetric(exp, sigma2, length, observations, dim, extra);
      k := start;
      for j := 0 to i + 1
        invariant Square(k, |observations|)
        invariant forall a, b :: 0 <= a < i && 0 <= b < i ==> k[a][b] == full[a][b]
        invariant forall b :: 0 <= b < j ==> k[i][b] + (if b == i then extra else 0.0) == full[i][b]
        invariant forall b :: 0 <= b < j && b < i ==> k[b][i] == full[b][i]
      {
        var value := RbfKernel(observations[i].params, observations[j].params);
        assert value + (if j == i then extra else 0.0) == full[i][j];
        k := k[i := k[i][j := value]];
        k := k[j := k[j][i := value]];
      }
      k := k[i := k[i][i := k[i][i] + extra]];
    }

    /** One attempt: factor the jittered matrix, and on success solve for the costs. */
    method Attempt(jitter: real, ghost attempt: nat) returns (ok: bool)
      requires Ready() && jitter == JitterAt(config.jitter, attempt)
      modifies this`cachedL, this`cachedAlpha
      ensures ok <==> PositiveDefinite(Jittered(attempt), |observations|)
      ensures ok ==> CacheFor(attempt)
    {
      var k := BuildKernelMatrix(config.noiseLevel + jitter);
      assert k == Jittered(attempt);
      KernelSymmetric(exp, sigma2, length, observations, dim, config.noiseLevel + jitter);
      var l, alpha;
      ok, l, alpha := FactorAndSolve(k, Costs(observations), |observations|, sqrt);
      cachedL := l;
      if ok {
        cachedAlpha := alpha;
      }
    }

    /** Afterwards the cache is valid unless none of the six jittered matrices is positive definite. */
    method EnsureCache()
      requires Valid()
      modifies this`cachedL, this`cachedAlpha, this`cacheValid
      ensures Valid()
      ensures cacheValid <== observations == []
      ensures !cacheValid <==> observations != [] && !old(cacheValid) && forall a :: 0 <= a <= 5 ==> !PositiveDefinite(Jittered(a), |observations|)
    {
      if cacheValid {
        return;
      }
      if observations == [] {
        cacheValid := true;
        return;
      }
      var ok := TryJitters();
      ghost var a;
      if ok {
        a :| FirstToSucceed(a) && CacheFor(a);
      }
      cacheValid := ok;
      if ok {
        assert FirstToSucceed(a) && CacheFor(a);
      }
    }

    /** Five attempts with growing jitter and, after skipping one more power of ten, a last one. */
    method TryJitters() returns (ok: bool)
      requires Ready()
      modifies this`cachedL, this`cachedAlpha
      ensures ok ==> exists a :: FirstToSucceed(a) && CacheFor(a)
      ensures !ok <==> forall a :: 0 <= a <= 5 ==> !PositiveDefinite(Jittered(a), |observations|)
    {
      var jitter := config.jitter;
      for attempt := 0 to 5
        invariant jitter == if attempt < 5 then JitterAt(config.jitter, attempt) else JitterAt(config.jitter, 4) * 10.0
        invariant forall a :: 0 <= a < attempt ==> !PositiveDefinite(Jittered(a), |observations|)
      {
        ok := Attempt(jitter, attempt);
        if ok {
          assert FirstToSucceed(attempt) && CacheFor(attempt);
          return;
        }
        jitter := jitter * 10.0;
      }
      jitter := jitter * 10.0;
      ok := Attempt(jitter, 5);
      if ok {
        assert FirstToSucceed(5) && CacheFor(5);
      }
    }

    /** The vector of kernel values between a point and the observations. */
    ghost function KStar(point: Vector): (v: Vector)
      reads this`observations, this`sigma2, this`length
      requires Ready() && |point| == dim
      ensures |v| == |observations|
    {
      KernelRow(exp, sigma2, length, observations, point)
    }

    method KernelVector(point: Vector) returns (kstar: Vector)
      requires Ready() && |point| == dim
      ensures kstar == KStar(point)
    {
      kstar := [];
      for i := 0 to |observations|
        invariant |kstar| == i && forall m :: 0 <= m < i ==> kstar[m] == KStar(point)[m]
      {
        var value := RbfKernel(point, observations[i].params);
        kstar := kstar + [value];
      }
    }

    method InnerProduct(u: Vector, v: Vector) returns (sum: real)
      requires |u| == |v|
      ensures sum == Dot(u, v)
    {
      sum := 0.0;
      for i := 0 to |u|
        invariant sum == DotTo(u, v, i)
      {
        sum := sum + u[i] * v[i];
      }
    }

    /** The posterior at a point. Its variance always lies between zero and the prior variance. */
    method Predict(point: Vector) returns (mean: real, variance: real)
      requires Valid() && |point| == dim
      modifies this`cachedL, this`cachedAlpha, this`cacheValid
      ensures Valid()
      ensures 0.0 <= variance <= sigma2
      ensures observations == [] || !cacheValid ==> mean == 0.0 && variance == sigma2
      ensures observations != [] && cacheValid ==>
                exists a, beta :: FirstToSucceed(a) && IsPosterior(a, beta, point, mean, variance)
      ensures observations != [] && cacheValid && Noiseless() && exp(0.0) == 1.0 ==>
                forall i :: 0 <= i < |observations| && observations[i].params == point ==> mean == observations[i].cost && variance == 0.0
    {
      EnsureCache();
      var n := |observations|;
      if n == 0 || !cacheValid {
        return 0.0, sigma2;
      }
      ghost var a :| FirstToSucceed(a) && CacheFor(a);
      ghost var beta;
      mean, variance, beta := Posterior(point, a);
      if Noiseless() && exp(0.0) == 1.0 {
        forall i | 0 <= i < n && observations[i].params == point
          ensures mean == observations[i].cost && variance == 0.0
        {
          Interpolates(a, beta, point, mean, variance, i);
        }
      }
    }

    /** Mean and variance from the cached factor and solution. */
    method Posterior(point: Vector, ghost a: nat) returns (mean: real, variance: real, beta: Vector)
      requires Ready() && |point| == dim && CacheFor(a)
      ensures IsPosterior(a, beta, point, mean, variance) && 0.0 <= variance <= sigma2
    {
      var n := |observations|;
      var kstar := KernelVector(point);
      beta := SolveCholesky(cachedL, kstar, n);
      SolutionOfFactor(cachedL, Jittered(a), beta, kstar, n);
      mean := InnerProduct(kstar, cachedAlpha);
      var explained := InnerProduct(kstar, beta);
      ExplainedIsSquare(cachedL, Jittered(a), beta, kstar, n);
      variance := if sigma2 - explained < 0.0 then 0.0 else sigma2 - explained;
    }

    /** beta and alpha solve the jittered kernel system for the kernel vector and for the costs. */
    ghost predicate IsPosterior(a: nat, beta: Vector, point: Vector, mean: real, variance: real)
      reads this`observations, this`sigma2, this`length, this`cachedL, this`cachedAlpha
      requires Ready() && |point| == dim
    {
      && CacheFor(a) && |beta| == |observations|
      && Times(Jittered(a), beta, |observations|) == KStar(point)
      && mean == Dot(KStar(point), cachedAlpha)
      && variance == if Dot(KStar(point), beta) > sigma2 then 0.0 else sigma2 - Dot(KStar(point), beta)
    }

    /** Without noise and jitter, the first attempt's matrix has the plain kernel values. */
    ghost predicate Noiseless() {
      config.noiseLevel == 0.0 && config.jitter == 0.0
    }

    /** Without noise and jitter the posterior passes through every observation with certainty. */
    lemma Interpolates(a: nat, beta: Vector, point: Vector, mean: real, variance: real, i: nat)
      requires Ready() && |point| == dim && IsPosterior(a, beta, point, mean, variance)
      requires Noiseless() && exp(0.0) == 1.0 && i < |observations| && observations[i].params == point
      ensures mean == observations[i].cost && variance == 0.0
    {
      var k, n := Jittered(a), |observations|;
      NoJitter(a);
      assert k[i] == KStar(point) by {
        MatrixRowsAreKernelRows(exp, sigma2, length, observations, dim, 0.0, i);
        OwnKernelValue(exp, sigma2, length, observations, i);
      }
      assert Times(k, cachedAlpha, n)[i] == Costs(observations)[i];
      KernelSymmetric(exp, sigma2, length, observations, dim, 0.0);
      OwnKernelValue(exp, sigma2, length, observations, i);
      SolutionIsUnit(cachedL, k, beta, i, n);
    }

    lemma NoJitter(a: nat)
      requires Ready() && Noiseless()
      ensures Jittered(a) == Kernel(exp, sigma2, length, observations, dim, 0.0)
    {
      JitterIsMultiple(config.jitter, a);
    }

    /** With a single observation and no noise the mean shrinks towards zero with the distance, and the variance grows. */
    lemma SingleObservation(a: nat, beta: Vector, point: Vector, mean: real, variance: real)
      requires Ready() && |point| == dim && IsPosterior(a, beta, point, mean, variance)
      requires Noiseless() && IsIncreasing(exp) && exp(0.0) == 1.0 && |observations| == 1
      ensures 0.0 <= mean <= observations[0].cost || observations[0].cost <= mean <= 0.0
      ensures mean == observations[0].cost <==> point == observations[0].params || observations[0].cost == 0.0
      ensures mean == 0.0 <==> observations[0].cost == 0.0
      ensures variance == 0.0 <==> point == observations[0].params
    {
      NoJitter(a);
      var rho := CorrelationOf(exp, sigma2, length, observations, point, 0);
      MatrixRowsAreKernelRows(exp, sigma2, length, observations, dim, 0.0, 0);
      var k, cost := Jittered(a), observations[0].cost;
      OnlyPivot(cachedL, k);
      assert Costs(observations)[0] == cost;
      OneByOne(k, KStar(point), cachedAlpha, beta, cost, rho);
      MeanShrinks(rho, cost, mean);
    }
  }

  lemma JitterIsMultiple(jitter: real, attempt: nat)
    requires jitter == 0.0
    ensures JitterAt(jitter, attempt) == 0.0
  {
    if attempt == 5 {
      JitterIsMultiple(jitter, 4);
    } else if attempt > 0 {
      JitterIsMultiple(jitter, attempt - 1);
    }
  }

  lemma OwnKernelValue(exp: real -> real, sigma2: real, length: real, points: seq<OptimizationPoint>, i: nat)
    requires i < |points| && SameDimension(points, |points[i].params|) && length != 0.0 && exp(0.0) == 1.0
    ensures KernelRow(exp, sigma2, length, points, points[i].params)[i] == sigma2
  {
    SqDistZero(points[i].params, points[i].params);
    ExponentOfZero(length);
  }

  ghost function Unit(i: nat, n: nat): (v: Vector)
    requires i < n
    ensures |v| == n
  {
    seq(n, j => if j == i then 1.0 else 0.0)
  }

  lemma {:induction false} DotWithUnit(u: Vector, i: nat, n: nat, m: nat)
    requires i < n == |u| && m <= n
    ensures DotTo(u, Unit(i, n), m) == if i < m then u[i] else 0.0
  {
    if m > 0 {
      DotWithUnit(u, i, n, m - 1);
    }
  }

  /** The only solution for a row of a symmetric matrix is the unit vector of that row. */
  lemma SolutionIsUnit(l: Matrix, k: Matrix, beta: Vector, i: nat, n: nat)
    requires i < n && Square(k, n) && Symmetric(k, n) && IsFactor(l, k, n) && |beta| == n && Times(k, beta, n) == k[i]
    ensures Dot(k[i], beta) == k[i][i]
  {
    var unit := Unit(i, n);
    forall j | 0 <= j < n
      ensures Times(k, unit, n)[j] == k[i][j]
    {
      DotWithUnit(k[j], i, n, n);
    }
    assert Times(k, unit, n) == k[i];
    SolutionIsUnique(l, k, beta, unit, n);
    DotWithUnit(k[i], i, n, n);
  }

  lemma DotOfOne(u: Vector, v: Vector)
    requires |u| == |v| == 1
    ensures Dot(u, v) == u[0] * v[0]
  {
    assert DotTo(u, v, 1) == DotTo(u, v, 0) + u[0] * v[0];
  }

  lemma OnlyPivot(l: Matrix, k: Matrix)
    requires Square(k, 1) && IsFactor(l, k, 1)
    ensures k[0][0] > 0.0
  {
    DotOfOne(l[0], l[0]);
    PositiveProduct(l[0][0], l[0][0], k[0][0]);
  }

  /** A part rho of an amount. */
  lemma PartOf(rho: real, amount: real, part: real)
    requires part == rho * amount && 0.0 < rho <= 1.0 && amount > 0.0
    ensures 0.0 < part <= amount && (part == amount <==> rho == 1.0)
  {
    PositiveProduct(rho, amount, part);
    if rho < 1.0 {
      PositiveProduct(1.0 - rho, amount, amount - part);
    }
  }

  /** Mean and explained variance of a one-by-one system. */
  lemma OneByOne(k: Matrix, kstar: Vector, alpha: Vector, beta: Vector, cost: real, rho: real)
    requires Square(k, 1) && |kstar| == |alpha| == |beta| == 1 && k[0][0] > 0.0 && kstar[0] == k[0][0] * rho
    requires Times(k, alpha, 1)[0] == cost && Times(k, beta, 1)[0] == kstar[0] && 0.0 < rho <= 1.0
    ensures Dot(kstar, alpha) == rho * cost
    ensures 0.0 <= Dot(kstar, beta) <= k[0][0] && (Dot(kstar, beta) == k[0][0] <==> rho == 1.0)
  {
    DotOfOne(k[0], alpha);
    DotOfOne(k[0], beta);
    DotOfOne(kstar, alpha);
    DotOfOne(kstar, beta);
    OneByOneMean(k[0][0], rho, alpha[0], cost, kstar[0]);
    OneByOneExplained(k[0][0], rho, beta[0], Dot(kstar, beta));
  }

  lemma OneByOneMean(v: real, rho: real, alpha: real, cost: real, k: real)
    requires v * alpha == cost && k == v * rho
    ensures k * alpha == rho * cost
  {
    assert (v * rho) * alpha == rho * (v * alpha);
  }

  lemma OneByOneExplained(v: real, rho: real, beta: real, explained: real)
    requires v > 0.0 && v * beta == v * rho && explained == (v * rho) * beta && 0.0 < rho <= 1.0
    ensures 0.0 <= explained <= v && (explained == v <==> rho == 1.0)
  {
    ScaleOrder(beta, rho, v);
    var square := rho * rho;
    PartOf(rho, rho, square);
    assert explained == square * v;
    PartOf(square, v, explained);
  }

  lemma MeanShrinks(rho: real, cost: real, mean: real)
    requires mean == rho * cost && 0.0 < rho <= 1.0
    ensures 0.0 <= mean <= cost || cost <= mean <= 0.0
    ensures (mean == cost <==> rho == 1.0 || cost == 0.0) && (mean == 0.0 <==> cost == 0.0)
  {
    if cost > 0.0 {
      PartOf(rho, cost, mean);
    } else if cost < 0.0 {
      PartOf(rho, -cost, -mean);
    }
  }

  /** k*^T K^-1 k* is a sum of squares. */
  lemma ExplainedIsSquare(l: Matrix, k: Matrix, beta: Vector, kstar: Vector, n: nat)
    requires Square(k, n) && IsFactor(l, k, n) && |beta| == |kstar| == n && Times(k, beta, n) == kstar
    ensures Dot(kstar, beta) == Dot(Combine(l, beta, n, n), Combine(l, beta, n, n)) && Dot(kstar, beta) >= 0.0
  {
    QuadraticIsSquare(l, k, beta, n);
    SquaresNonNegative(Combine(l, beta, n, n), n);
  }
}
