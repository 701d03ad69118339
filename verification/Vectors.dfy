/** Finite vectors over the reals: dot products and their laws, and what is used of real functions and quotients. */
module Vectors {

  type Vector = seq<real>

  /** `sqrt` stands for the square root function of the mathematics library. */
  ghost predicate IsSquareRoot(sqrt: real -> real) {
    forall x {:trigger sqrt(x)} :: x >= 0.0 ==> sqrt(x) >= 0.0 && sqrt(x) * sqrt(x) == x
  }

  /** `exp` stands for the exponential function of the mathematics library. */
  ghost predicate IsPositive(exp: real -> real) {
    forall x {:trigger exp(x)} :: exp(x) > 0.0
  }

  ghost predicate IsIncreasing(exp: real -> real) {
    forall x, y {:trigger exp(x), exp(y)} :: x < y ==> exp(x) < exp(y)
  }

  ghost predicate TurnsSumsIntoProducts(exp: real -> real) {
    forall x, y, sum {:trigger exp(x), exp(y), exp(sum)} :: sum == x + y ==> exp(sum) == exp(x) * exp(y)
  }

  /** Sum of u[j] * v[j] for j below n. */
  function DotTo(u: Vector, v: Vector, n: nat): real
    requires n <= |u| && n <= |v|
  {
    if n == 0 then 0.0 else DotTo(u, v, n - 1) + u[n - 1] * v[n - 1]
  }

  function Dot(u: Vector, v: Vector): real
    requires |u| == |v|
  {
    DotTo(u, v, |u|)
  }

  ghost predicate Rectangular(points: seq<Vector>, dim: nat) {
    forall i :: 0 <= i < |points| ==> |points[i]| == dim
  }

  function Zeros(n: nat): Vector {
    seq(n, _ => 0.0)
  }

  /** u + a * v. */
  function Axpy(u: Vector, a: real, v: Vector): Vector
    requires |u| == |v|
  {
    seq(|u|, j requires 0 <= j < |u| => u[j] + a * v[j])
  }

  function Minus(u: Vector, v: Vector): Vector
    requires |u| == |v|
  {
    seq(|u|, j requires 0 <= j < |u| => u[j] - v[j])
  }

  function SqDist(u: Vector, v: Vector): real
    requires |u| == |v|
  {
    Dot(Minus(u, v), Minus(u, v))
  }

  method SquaredDistance(a: Vector, b: Vector) returns (sum: real)
    requires |a| == |b|
    ensures sum == SqDist(a, b)
  {
    sum := 0.0;
    for i := 0 to |a|
      invariant sum == DotTo(Minus(a, b), Minus(a, b), i)
    {
      var d := a[i] - b[i];
      sum := sum + d * d;
    }
  }

  lemma MinusAxpy(u: Vector, w: Vector, a: real, v: Vector)
    requires |u| == |v| == |w|
    ensures Minus(u, Axpy(w, a, v)) == Axpy(Minus(u, w), -a, v)
  {
    forall j | 0 <= j < |u|
      ensures Minus(u, Axpy(w, a, v))[j] == Axpy(Minus(u, w), -a, v)[j]
    {
      assert -(a * v[j]) == (-a) * v[j];
    }
  }

  lemma {:induction false} DotToAxpy(u: Vector, a: real, v: Vector, w: Vector, n: nat)
    requires |u| == |v| == |w| && n <= |u|
    ensures DotTo(Axpy(u, a, v), w, n) == DotTo(u, w, n) + a * DotTo(v, w, n)
  {
    if n > 0 {
      DotToAxpy(u, a, v, w, n - 1);
      assert (u[n - 1] + a * v[n - 1]) * w[n - 1] == u[n - 1] * w[n - 1] + a * (v[n - 1] * w[n - 1]);
    }
  }

  lemma {:induction false} DotToSymmetric(u: Vector, v: Vector, n: nat)
    requires n <= |u| && n <= |v|
    ensures DotTo(u, v, n) == DotTo(v, u, n)
  {
    if n > 0 {
      DotToSymmetric(u, v, n - 1);
    }
  }

  /** |u + a v|^2 = |u|^2 + 2 a <u, v> + a^2 |v|^2. */
  lemma SquareOfAxpy(u: Vector, a: real, v: Vector)
    requires |u| == |v|
    ensures Dot(Axpy(u, a, v), Axpy(u, a, v)) == Dot(u, u) + 2.0 * a * Dot(u, v) + a * a * Dot(v, v)
  {
    var w := Axpy(u, a, v);
    DotToAxpy(u, a, v, w, |u|);
    DotToSymmetric(u, w, |u|);
    DotToSymmetric(v, w, |u|);
    DotToAxpy(u, a, v, u, |u|);
    DotToAxpy(u, a, v, v, |u|);
    DotToSymmetric(v, u, |u|);
    var uv, vv := Dot(u, v), Dot(v, v);
    assert Dot(w, w) == (Dot(u, u) + a * uv) + a * (uv + a * vv);
    assert a * (uv + a * vv) == a * uv + a * a * vv;
  }

  lemma {:induction false} SquaresNonNegative(u: Vector, n: nat)
    requires n <= |u|
    ensures DotTo(u, u, n) >= 0.0
    ensures DotTo(u, u, n) == 0.0 <==> forall j :: 0 <= j < n ==> u[j] == 0.0
  {
    if n > 0 {
      SquaresNonNegative(u, n - 1);
      var last := u[n - 1];
      AddSquare(DotTo(u, u, n), DotTo(u, u, n - 1), last);
    }
  }

  lemma AddSquare(total: real, rest: real, a: real)
    requires total == rest + a * a && rest >= 0.0
    ensures total >= 0.0 && (total == 0.0 <==> rest == 0.0 && a == 0.0)
  {
    var q := total - rest;
    SquareSign(a, q);
  }

  lemma SquareSign(a: real, q: real)
    requires q == a * a
    ensures q >= 0.0 && (q == 0.0 <==> a == 0.0)
  {
    if a > 0.0 {
      PositiveProduct(a, a, q);
    } else if a < 0.0 {
      PositiveProduct(-a, -a, q);
    }
  }

  lemma PositiveProduct(a: real, b: real, q: real)
    requires a > 0.0 && b > 0.0 && q == a * b
    ensures q > 0.0
  {
  }

  /** Scaling by a positive factor keeps the order. */
  lemma ScaleOrder(a: real, b: real, d: real)
    requires d > 0.0
    ensures a < b <==> a * d < b * d
    ensures a == b <==> a * d == b * d
  {
    if a < b {
      PositiveProduct(b - a, d, (b - a) * d);
    } else if b < a {
      PositiveProduct(a - b, d, (a - b) * d);
    }
  }

  function Ratio(a: real, d: real): real
    requires d != 0.0
  {
    a / d
  }

  lemma QuotientTimes(a: real, d: real)
    requires d != 0.0
    ensures a / d * d == a && d * (a / d) == a
  {
  }

  lemma RatioTimes(a: real, d: real)
    requires d != 0.0
    ensures Ratio(a, d) * d == a
  {
  }

  /** The ratio is the only number whose product with the divisor is the dividend. */
  lemma RatioIs(a: real, d: real, q: real)
    requires d > 0.0 && q * d == a
    ensures Ratio(a, d) == q
  {
    RatioTimes(a, d);
    ScaleOrder(Ratio(a, d), q, d);
  }

  lemma RatioSign(a: real, d: real)
    requires d > 0.0 && a > 0.0
    ensures Ratio(a, d) > 0.0
  {
    var r := Ratio(a, d);
    RatioTimes(a, d);
    if r < 0.0 {
      PositiveProduct(-r, d, -a);
    }
  }

  lemma SqDistZero(u: Vector, v: Vector)
    requires |u| == |v|
    ensures SqDist(u, v) >= 0.0 && (SqDist(u, v) == 0.0 <==> u == v)
  {
    SquaresNonNegative(Minus(u, v), |u|);
    if SqDist(u, v) == 0.0 {
      forall j | 0 <= j < |u|
        ensures u[j] == v[j]
      {
        assert Minus(u, v)[j] == 0.0;
      }
    }
  }
}
