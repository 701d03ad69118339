/** Separable Gaussian smoothing with clamped borders (src/detection/post_process_utils.cpp, GaussianBlur).
    The exponential is a parameter: each result names what it needs of it. */
module Smoothing {
  import opened PixelGrid
  import opened Resampling
  import opened Vectors

  // ---- The kernel ----

  function Total(weights: seq<real>, n: nat): real
    requires n <= |weights|
  {
    if n == 0 then 0.0 else Total(weights, n - 1) + weights[n - 1]
  }

  function RawWeight(exp: real -> real, sigma: nat, i: nat): real
    requires sigma > 0
  {
    exp(RawExponent(sigma, i))
  }

  function RawExponent(sigma: nat, i: nat): real
    requires sigma > 0
  {
    Ratio(HalfSquare(i as real - (3 * sigma) as real), sigma as real * sigma as real)
  }

  function HalfSquare(r: real): real {
    -0.5 * r * r
  }

  function RawWeights(exp: real -> real, sigma: nat): (raw: seq<real>)
    requires sigma > 0
    ensures |raw| == 6 * sigma + 1
  {
    seq(6 * sigma + 1, i requires 0 <= i => RawWeight(exp, sigma, i))
  }

  ghost predicate AllPositive(weights: seq<real>) {
    forall i :: 0 <= i < |weights| ==> weights[i] > 0.0
  }

  lemma {:induction false} TotalIsPositive(weights: seq<real>, n: nat)
    requires AllPositive(weights) && 0 < n <= |weights|
    ensures Total(weights, n) > 0.0
  {
    if n > 1 {
      TotalIsPositive(weights, n - 1);
    } else {
      assert Total(weights, 1) == Total(weights, 0) + weights[0];
    }
  }

  function Scaled(weights: seq<real>, sum: real): (scaled: seq<real>)
    requires sum != 0.0
    ensures |scaled| == |weights| && forall i :: 0 <= i < |weights| ==> scaled[i] == Ratio(weights[i], sum)
  {
    seq(|weights|, i requires 0 <= i < |weights| => Ratio(weights[i], sum))
  }

  lemma RatioOfSum(a: real, b: real, d: real)
    requires d > 0.0
    ensures Ratio(a + b, d) == Ratio(a, d) + Ratio(b, d)
  {
    RatioTimes(a, d);
    RatioTimes(b, d);
    var ra, rb := Ratio(a, d), Ratio(b, d);
    assert (ra + rb) * d == ra * d + rb * d;
    RatioIs(a + b, d, ra + rb);
  }

  lemma {:induction false} TotalScales(weights: seq<real>, sum: real, n: nat)
    requires sum > 0.0 && n <= |weights|
    ensures Total(Scaled(weights, sum), n) == Ratio(Total(weights, n), sum)
  {
    if n > 0 {
      TotalScales(weights, sum, n - 1);
      RatioOfSum(Total(weights, n - 1), weights[n - 1], sum);
    } else {
      RatioIs(0.0, sum, 0.0);
    }
  }

  /** Positive weights that sum to one. */
  ghost predicate IsKernel(kernel: seq<real>) {
    AllPositive(kernel) && Total(kernel, |kernel|) == 1.0
  }

  ghost predicate IsSymmetric(kernel: seq<real>) {
    forall i :: 0 <= i < |kernel| ==> kernel[i] == kernel[|kernel| - 1 - i]
  }

  lemma RawWeightsArePositive(exp: real -> real, sigma: nat)
    requires sigma > 0 && IsPositive(exp)
    ensures AllPositive(RawWeights(exp, sigma)) && Total(RawWeights(exp, sigma), 6 * sigma + 1) > 0.0
  {
    TotalIsPositive(RawWeights(exp, sigma), 6 * sigma + 1);
  }

  /** The normalised kernel of a positive sigma. */
  function Kernel(exp: real -> real, sigma: nat): (kernel: seq<real>)
    requires sigma > 0 && IsPositive(exp)
    ensures |kernel| == 6 * sigma + 1
  {
    RawWeightsArePositive(exp, sigma);
    Scaled(RawWeights(exp, sigma), Total(RawWeights(exp, sigma), 6 * sigma + 1))
  }

  lemma RawWeightSymmetric(exp: real -> real, sigma: nat, i: nat)
    requires sigma > 0 && i <= 6 * sigma
    ensures RawWeight(exp, sigma, i) == RawWeight(exp, sigma, 6 * sigma - i)
  {
    var r := i as real - (3 * sigma) as real;
    assert (6 * sigma - i) as real - (3 * sigma) as real == -r;
    HalfSquareIsEven(r, -r);
  }

  lemma HalfSquareIsEven(r: real, s: real)
    requires s == -r
    ensures HalfSquare(r) == HalfSquare(s)
  {
    assert -0.5 * r * r == -0.5 * s * s;
  }

  lemma ScaledWeights(raw: seq<real>, sum: real)
    requires AllPositive(raw) && sum == Total(raw, |raw|) > 0.0
    ensures IsKernel(Scaled(raw, sum))
    ensures IsSymmetric(raw) ==> IsSymmetric(Scaled(raw, sum))
  {
    TotalScales(raw, sum, |raw|);
    RatioIs(sum, sum, 1.0);
    forall i | 0 <= i < |raw|
      ensures Ratio(raw[i], sum) > 0.0
    {
      RatioSign(raw[i], sum);
    }
  }

  lemma KernelIsKernel(exp: real -> real, sigma: nat)
    requires sigma > 0 && IsPositive(exp)
    ensures IsKernel(Kernel(exp, sigma)) && IsSymmetric(Kernel(exp, sigma))
  {
    var raw := RawWeights(exp, sigma);
    RawWeightsArePositive(exp, sigma);
    forall i: nat | i < |raw|
      ensures raw[i] == raw[|raw| - 1 - i]
    {
      RawWeightSymmetric(exp, sigma, i);
    }
    ScaledWeights(raw, Total(raw, |raw|));
  }

  // ---- The kernel is a Gaussian ----

  /** The weights fall off strictly with the distance from the middle. */
  ghost predicate PeaksInTheMiddle(kernel: seq<real>) {
    forall i, j | 0 <= i < |kernel| && 0 <= j < |kernel| ::
      Distance(i, |kernel| / 2) < Distance(j, |kernel| / 2) ==> kernel[i] > kernel[j]
  }

  /** q is -a^2 / 2 sigma^2, the exponent of the Gaussian at a steps from its middle. */
  ghost predicate IsExponent(q: real, a: int, sigma: nat) {
    q * Twice(Square(sigma)) == -Square(a)
  }

  function Square(a: int): real {
    a as real * a as real
  }

  function Product(a: real, b: real): real {
    a * b
  }

  function Twice(v: real): real {
    2.0 * v
  }

  /** At a steps from the middle the weight is the one of the middle times exp(-a^2 / 2 sigma^2). */
  ghost predicate IsGaussian(kernel: seq<real>, sigma: nat, exp: real -> real) {
    && |kernel| == 6 * sigma + 1
    && forall a: int, q: real | -3 * sigma <= a <= 3 * sigma && IsExponent(q, a, sigma) ::
         kernel[3 * sigma + a] == kernel[3 * sigma] * exp(q)
  }

  function Distance(i: int, j: int): nat {
    if i < j then j - i else i - j
  }

  lemma FartherSquare(a: int, b: int)
    requires Distance(a, 0) < Distance(b, 0)
    ensures Square(a) < Square(b)
  {
    var m, n := Distance(a, 0) as real, Distance(b, 0) as real;
    SameSquare(a as real, m, Square(a));
    SameSquare(b as real, n, Square(b));
    SquareOrder(m, n, Square(a), Square(b));
  }

  lemma SquareOrder(m: real, n: real, p: real, q: real)
    requires 0.0 <= m < n && p == m * m && q == n * n
    ensures p < q
  {
    SquareSign(m, p);
    SquareSign(n, q);
    if m > 0.0 {
      ScaleOrder(m, n, n);
      ScaleOrder(m, n, m);
    }
  }

  lemma SameSquare(a: real, b: real, q: real)
    requires (a == b || a == -b) && q == a * a
    ensures q == b * b
  {
  }

  lemma SquareIsPositive(sigma: nat)
    requires sigma > 0
    ensures Twice(Square(sigma)) > 0.0
  {
    PositiveProduct(sigma as real, sigma as real, Square(sigma));
  }

  lemma RawExponentIs(sigma: nat, i: nat)
    requires sigma > 0
    ensures IsExponent(RawExponent(sigma, i), i - 3 * sigma, sigma)
  {
    var a := i - 3 * sigma;
    assert i as real - (3 * sigma) as real == a as real;
    RatioTimes(HalfSquare(a as real), Square(sigma));
    assert HalfSquare(a as real) == -0.5 * Square(a);
    assert RawExponent(sigma, i) * Twice(Square(sigma)) == Twice(RawExponent(sigma, i) * Square(sigma));
  }

  ghost function KernelTotal(exp: real -> real, sigma: nat): (total: real)
    requires sigma > 0 && IsPositive(exp)
    ensures total > 0.0
  {
    RawWeightsArePositive(exp, sigma);
    Total(RawWeights(exp, sigma), 6 * sigma + 1)
  }

  lemma WeightOf(exp: real -> real, sigma: nat, i: nat)
    requires sigma > 0 && IsPositive(exp) && i <= 6 * sigma
    ensures Product(Kernel(exp, sigma)[i], KernelTotal(exp, sigma)) == exp(RawExponent(sigma, i))
  {
    RatioTimes(RawWeight(exp, sigma, i), KernelTotal(exp, sigma));
  }

  lemma LargerExponent(e: real, f: real, a: int, b: int, sigma: nat)
    requires sigma > 0 && IsExponent(e, a, sigma) && IsExponent(f, b, sigma) && Square(a) < Square(b)
    ensures f < e
  {
    SquareIsPositive(sigma);
    ScaleOrder(f, e, Twice(Square(sigma)));
  }

  lemma SmallerWeight(k: real, m: real, total: real, u: real, v: real)
    requires total > 0.0 && Product(k, total) == u && Product(m, total) == v && u < v
    ensures k < m
  {
    ScaleOrder(k, m, total);
  }

  lemma KernelFallsOff(exp: real -> real, sigma: nat, i: nat, j: nat)
    requires sigma > 0 && IsPositive(exp) && IsIncreasing(exp) && i <= 6 * sigma && j <= 6 * sigma
    requires Distance(i, 3 * sigma) < Distance(j, 3 * sigma)
    ensures Kernel(exp, sigma)[i] > Kernel(exp, sigma)[j]
  {
    assert RawExponent(sigma, j) < RawExponent(sigma, i) by {
      RawExponentIs(sigma, i);
      RawExponentIs(sigma, j);
      FartherSquare(i - 3 * sigma, j - 3 * sigma);
      LargerExponent(RawExponent(sigma, i), RawExponent(sigma, j), i - 3 * sigma, j - 3 * sigma, sigma);
    }
    WeightOf(exp, sigma, i);
    WeightOf(exp, sigma, j);
    SmallerWeight(Kernel(exp, sigma)[j], Kernel(exp, sigma)[i], KernelTotal(exp, sigma),
                  exp(RawExponent(sigma, j)), exp(RawExponent(sigma, i)));
  }

  lemma KernelPeaks(exp: real -> real, sigma: nat)
    requires sigma > 0 && IsPositive(exp) && IsIncreasing(exp)
    ensures PeaksInTheMiddle(Kernel(exp, sigma))
  {
    forall i: nat, j: nat | i <= 6 * sigma && j <= 6 * sigma && Distance(i, 3 * sigma) < Distance(j, 3 * sigma)
      ensures Kernel(exp, sigma)[i] > Kernel(exp, sigma)[j]
    {
      KernelFallsOff(exp, sigma, i, j);
    }
  }

  lemma SameExponent(e: real, f: real, a: int, sigma: nat)
    requires sigma > 0 && IsExponent(e, a, sigma) && IsExponent(f, a, sigma)
    ensures e == f
  {
    SquareIsPositive(sigma);
    ScaleOrder(f, e, Twice(Square(sigma)));
  }

  lemma FactorOut(k: real, m: real, x: real, total: real, u: real, v: real)
    requires total > 0.0 && Product(k, total) == v && Product(m, total) == u && v == Product(u, x)
    ensures k == Product(m, x)
  {
    assert m * total * x == (m * x) * total;
    ScaleOrder(k, m * x, total);
  }

  lemma PeakExponent(sigma: nat)
    requires sigma > 0
    ensures RawExponent(sigma, 3 * sigma) == 0.0
  {
    RawExponentIs(sigma, 3 * sigma);
    assert IsExponent(0.0, 0, sigma);
    SameExponent(RawExponent(sigma, 3 * sigma), 0.0, 0, sigma);
  }

  lemma ExponentialOfSum(exp: real -> real, x: real, y: real, sum: real)
    requires TurnsSumsIntoProducts(exp) && sum == x + y
    ensures exp(sum) == Product(exp(x), exp(y))
  {
  }

  lemma KernelIsGaussianAt(exp: real -> real, sigma: nat, a: int, q: real)
    requires sigma > 0 && IsPositive(exp) && TurnsSumsIntoProducts(exp)
    requires -3 * sigma <= a <= 3 * sigma && IsExponent(q, a, sigma)
    ensures Kernel(exp, sigma)[3 * sigma + a] == Product(Kernel(exp, sigma)[3 * sigma], exp(q))
  {
    var v, u := exp(RawExponent(sigma, 3 * sigma + a)), exp(RawExponent(sigma, 3 * sigma));
    assert v == Product(u, exp(q)) by {
      RawExponentIs(sigma, 3 * sigma + a);
      SameExponent(RawExponent(sigma, 3 * sigma + a), q, a, sigma);
      PeakExponent(sigma);
      ExponentialOfSum(exp, 0.0, q, q);
    }
    WeightOf(exp, sigma, 3 * sigma + a);
    WeightOf(exp, sigma, 3 * sigma);
    FactorOut(Kernel(exp, sigma)[3 * sigma + a], Kernel(exp, sigma)[3 * sigma], exp(q), KernelTotal(exp, sigma), u, v);
  }

  lemma KernelIsGaussian(exp: real -> real, sigma: nat)
    requires sigma > 0 && IsPositive(exp) && TurnsSumsIntoProducts(exp)
    ensures IsGaussian(Kernel(exp, sigma), sigma, exp)
  {
    forall a: int, q: real | -3 * sigma <= a <= 3 * sigma && IsExponent(q, a, sigma)
      ensures Kernel(exp, sigma)[3 * sigma + a] == Kernel(exp, sigma)[3 * sigma] * exp(q)
    {
      KernelIsGaussianAt(exp, sigma, a, q);
    }
  }

  lemma OneSigma(sigma: nat)
    ensures IsExponent(-0.5, sigma, sigma)
  {
  }

  /** The exponents of two steps add up to that of the step whose square is the sum of theirs. */
  lemma ExponentsAdd(a: int, b: int, d: int, sigma: nat) returns (p: real, q: real, r: real)
    requires sigma > 0 && Square(a) + Square(b) == Square(d)
    ensures IsExponent(p, a, sigma) && IsExponent(q, b, sigma) && IsExponent(r, d, sigma) && r == p + q
  {
    var s := Twice(Square(sigma));
    SquareIsPositive(sigma);
    p, q := Ratio(-Square(a), s), Ratio(-Square(b), s);
    RatioTimes(-Square(a), s);
    RatioTimes(-Square(b), s);
    r := p + q;
    assert r * s == p * s + q * s;
  }

  lemma Regroup(k: real, x: real, y: real, xy: real, ka: real, kb: real, kd: real)
    requires xy == Product(x, y) && ka == Product(k, x) && kb == Product(k, y) && kd == Product(k, xy)
    ensures Product(ka, kb) == Product(k, kd)
  {
    assert (k * x) * (k * y) == k * (k * (x * y));
  }

  /** One sigma from the middle the weight is down by exp(-1/2). */
  lemma OneSigmaOut(exp: real -> real, sigma: nat)
    requires sigma > 0 && IsPositive(exp) && TurnsSumsIntoProducts(exp)
    ensures Kernel(exp, sigma)[4 * sigma] == Kernel(exp, sigma)[3 * sigma] * exp(-0.5)
  {
    OneSigma(sigma);
    KernelIsGaussianAt(exp, sigma, sigma, -0.5);
  }

  /** Steps from the middle combine like the sides of a right triangle. */
  lemma StepsCombine(exp: real -> real, sigma: nat, a: int, b: int, d: int)
    requires sigma > 0 && IsPositive(exp) && TurnsSumsIntoProducts(exp)
    requires -3 * sigma <= a <= 3 * sigma && -3 * sigma <= b <= 3 * sigma && -3 * sigma <= d <= 3 * sigma
    requires Square(a) + Square(b) == Square(d)
    ensures Product(Kernel(exp, sigma)[3 * sigma + a], Kernel(exp, sigma)[3 * sigma + b])
         == Product(Kernel(exp, sigma)[3 * sigma], Kernel(exp, sigma)[3 * sigma + d])
  {
    var kernel := Kernel(exp, sigma);
    var x, y, xy := CombinedSteps(exp, sigma, a, b, d);
    Regroup(kernel[3 * sigma], x, y, xy, kernel[3 * sigma + a], kernel[3 * sigma + b], kernel[3 * sigma + d]);
  }

  lemma CombinedSteps(exp: real -> real, sigma: nat, a: int, b: int, d: int) returns (x: real, y: real, xy: real)
    requires sigma > 0 && IsPositive(exp) && TurnsSumsIntoProducts(exp)
    requires -3 * sigma <= a <= 3 * sigma && -3 * sigma <= b <= 3 * sigma && -3 * sigma <= d <= 3 * sigma
    requires Square(a) + Square(b) == Square(d)
    ensures xy == Product(x, y)
    ensures Kernel(exp, sigma)[3 * sigma + a] == Product(Kernel(exp, sigma)[3 * sigma], x)
    ensures Kernel(exp, sigma)[3 * sigma + b] == Product(Kernel(exp, sigma)[3 * sigma], y)
    ensures Kernel(exp, sigma)[3 * sigma + d] == Product(Kernel(exp, sigma)[3 * sigma], xy)
  {
    var p, q, r := ExponentsAdd(a, b, d, sigma);
    x, y, xy := exp(p), exp(q), exp(r);
    ExponentialOfSum(exp, p, q, r);
    KernelIsGaussianAt(exp, sigma, a, p);
    KernelIsGaussianAt(exp, sigma, b, q);
    KernelIsGaussianAt(exp, sigma, d, r);
  }

  lemma KernelMeaning(exp: real -> real, sigma: nat)
    requires sigma > 0 && IsPositive(exp)
    ensures IsKernel(Kernel(exp, sigma)) && IsSymmetric(Kernel(exp, sigma))
    ensures IsIncreasing(exp) ==> PeaksInTheMiddle(Kernel(exp, sigma))
    ensures TurnsSumsIntoProducts(exp) ==> IsGaussian(Kernel(exp, sigma), sigma, exp)
  {
    KernelIsKernel(exp, sigma);
    if IsIncreasing(exp) {
      KernelPeaks(exp, sigma);
    }
    if TurnsSumsIntoProducts(exp) {
      KernelIsGaussian(exp, sigma);
    }
  }

  method BuildKernel(exp: real -> real, sigma: nat) returns (kernel: seq<real>)
    requires sigma > 0 && IsPositive(exp)
    ensures kernel == Kernel(exp, sigma) && IsKernel(kernel) && IsSymmetric(kernel)
    ensures IsIncreasing(exp) ==> PeaksInTheMiddle(kernel)
    ensures TurnsSumsIntoProducts(exp) ==> IsGaussian(kernel, sigma, exp)
  {
    var weights, sum := FillWeights(exp, sigma);
    RawWeightsArePositive(exp, sigma);
    Normalize(weights, sum);
    kernel := weights[..];
    KernelMeaning(exp, sigma);
  }

  method FillWeights(exp: real -> real, sigma: nat) returns (weights: array<real>, sum: real)
    requires sigma > 0
    ensures fresh(weights) && weights[..] == RawWeights(exp, sigma) && sum == Total(weights[..], weights.Length)
  {
    var radius := 3 * sigma;
    var size := 2 * radius + 1;
    ghost var raw := RawWeights(exp, sigma);
    weights := new real[size];
    sum := 0.0;
    for i: nat := 0 to size
      invariant sum == Total(raw, i) && forall j :: 0 <= j < i ==> weights[j] == raw[j]
    {
      var weight := RawWeight(exp, sigma, i);
      assert weight == raw[i];
      weights[i] := weight;
      sum := sum + weight;
    }
    assert weights[..] == raw;
  }

  method Normalize(weights: array<real>, sum: real)
    requires sum != 0.0
    modifies weights
    ensures weights[..] == Scaled(old(weights[..]), sum)
  {
    ghost var raw := weights[..];
    for i: nat := 0 to weights.Length
      invariant forall j :: 0 <= j < weights.Length ==> weights[j] == if j < i then Ratio(raw[j], sum) else raw[j]
    {
      weights[i] := Ratio(weights[i], sum);
    }
  }

  // ---- Weighted sums over the image extended beyond its border ----

  function ClampTo(c: int, size: nat): (line: nat)
    requires size > 0
    ensures line < size
  {
    var low := if c < size - 1 then c else size - 1;
    if low < 0 then 0 else low
  }

  /** The image with its border pixels repeated for ever outwards. */
  function Extended(image: seq<real>, h: nat, w: nat, y: int, x: int): real
    requires h > 0 && w > 0 && |image| == h * w
  {
    At(image, h, w, ClampTo(y, h), ClampTo(x, w))
  }

  function WeightedSum(f: int -> real, kernel: seq<real>, n: nat): real
    requires n <= |kernel|
  {
    if n == 0 then 0.0 else WeightedSum(f, kernel, n - 1) + f(n - 1) * kernel[n - 1]
  }

  function RowSum(image: seq<real>, h: nat, w: nat, kernel: seq<real>, y: int, x: int): real
    requires h > 0 && w > 0 && |image| == h * w
  {
    WeightedSum(k => Extended(image, h, w, y, x + k - |kernel| / 2), kernel, |kernel|)
  }

  function ColumnSum(image: seq<real>, h: nat, w: nat, kernel: seq<real>, y: int, x: int): real
    requires h > 0 && w > 0 && |image| == h * w
  {
    WeightedSum(k => Extended(image, h, w, y + k - |kernel| / 2, x), kernel, |kernel|)
  }

  function RowPass(image: seq<real>, h: nat, w: nat, kernel: seq<real>): (out: seq<real>)
    requires h > 0 && w > 0 && |image| == h * w
    ensures |out| == h * w
    ensures forall i :: 0 <= i < h * w ==> out[i] == RowSum(image, h, w, kernel, Row(w, i), Column(w, i))
  {
    seq(h * w, i requires 0 <= i < h * w => RowSum(image, h, w, kernel, Row(w, i), Column(w, i)))
  }

  function ColumnPass(image: seq<real>, h: nat, w: nat, kernel: seq<real>): (out: seq<real>)
    requires h > 0 && w > 0 && |image| == h * w
    ensures |out| == h * w
    ensures forall i :: 0 <= i < h * w ==> out[i] == ColumnSum(image, h, w, kernel, Row(w, i), Column(w, i))
  {
    seq(h * w, i requires 0 <= i < h * w => ColumnSum(image, h, w, kernel, Row(w, i), Column(w, i)))
  }

  function Blurred(src: seq<real>, h: nat, w: nat, sigma: nat, exp: real -> real): (dst: seq<real>)
    requires |src| == h * w && IsPositive(exp)
    ensures |dst| == h * w
  {
    if h == 0 || w == 0 then []
    else if sigma == 0 then src
    else ColumnPass(RowPass(src, h, w, Kernel(exp, sigma)), h, w, Kernel(exp, sigma))
  }

  // ---- The loops ----

  method HorizontalPass(src: seq<real>, h: nat, w: nat, kernel: seq<real>, radius: nat, temp: array<real>)
    requires h > 0 && w > 0 && |src| == h * w == temp.Length && |kernel| == 2 * radius + 1
    modifies temp
    ensures temp[..] == RowPass(src, h, w, kernel)
  {
    for y: nat := 0 to h
      invariant forall i :: 0 <= i < y * w ==> i < temp.Length && temp[i] == RowSum(src, h, w, kernel, Row(w, i), Column(w, i))
    {
      RowFits(h, w, y);
      HorizontalRow(src, h, w, kernel, radius, y, temp);
    }
  }

  method HorizontalRow(src: seq<real>, h: nat, w: nat, kernel: seq<real>, radius: nat, y: nat, temp: array<real>)
    requires h > 0 && w > 0 && |src| == h * w == temp.Length && |kernel| == 2 * radius + 1 && y < h && y * w + w <= h * w
    requires forall i :: 0 <= i < y * w ==> temp[i] == RowSum(src, h, w, kernel, Row(w, i), Column(w, i))
    modifies temp
    ensures forall i :: 0 <= i < y * w + w ==> temp[i] == RowSum(src, h, w, kernel, Row(w, i), Column(w, i))
  {
    for x: nat := 0 to w
      invariant forall i :: 0 <= i < y * w + x ==> temp[i] == RowSum(src, h, w, kernel, Row(w, i), Column(w, i))
    {
      var val := 0.0;
      ghost var f := (k: int) => Extended(src, h, w, y, x + k - |kernel| / 2);
      for k: nat := 0 to |kernel|
        invariant val == WeightedSum(f, kernel, k)
      {
        var sx := ClampTo(x + k - radius, w);
        assert ClampTo(y, h) == y && |kernel| / 2 == radius;
        assert f(k) == Extended(src, h, w, y, x + k - radius);
        val := val + At(src, h, w, y, sx) * kernel[k];
      }
      IndexOf(w, y, x);
      temp[y * w + x] := val;
    }
  }

  method VerticalRow(temp: seq<real>, h: nat, w: nat, kernel: seq<real>, radius: nat, y: nat, dst: array<real>)
    requires h > 0 && w > 0 && |temp| == h * w == dst.Length && |kernel| == 2 * radius + 1 && y < h && y * w + w <= h * w
    requires forall i :: 0 <= i < y * w ==> dst[i] == ColumnSum(temp, h, w, kernel, Row(w, i), Column(w, i))
    modifies dst
    ensures forall i :: 0 <= i < y * w + w ==> dst[i] == ColumnSum(temp, h, w, kernel, Row(w, i), Column(w, i))
  {
    for x: nat := 0 to w
      invariant forall i :: 0 <= i < y * w + x ==> dst[i] == ColumnSum(temp, h, w, kernel, Row(w, i), Column(w, i))
    {
      var val := 0.0;
      ghost var f := (k: int) => Extended(temp, h, w, y + k - |kernel| / 2, x);
      for k: nat := 0 to |kernel|
        invariant val == WeightedSum(f, kernel, k)
      {
        var sy := ClampTo(y + k - radius, h);
        assert ClampTo(x, w) == x && |kernel| / 2 == radius;
        assert f(k) == Extended(temp, h, w, y + k - radius, x);
        val := val + At(temp, h, w, sy, x) * kernel[k];
      }
      IndexOf(w, y, x);
      dst[y * w + x] := val;
    }
  }

  method VerticalPass(temp: seq<real>, h: nat, w: nat, kernel: seq<real>, radius: nat, dst: array<real>)
    requires h > 0 && w > 0 && |temp| == h * w == dst.Length && |kernel| == 2 * radius + 1
    modifies dst
    ensures dst[..] == ColumnPass(temp, h, w, kernel)
  {
    for y: nat := 0 to h
      invariant forall i :: 0 <= i < y * w ==> i < dst.Length && dst[i] == ColumnSum(temp, h, w, kernel, Row(w, i), Column(w, i))
    {
      RowFits(h, w, y);
      VerticalRow(temp, h, w, kernel, radius, y, dst);
    }
  }

  method GaussianBlur(src: seq<real>, h: nat, w: nat, sigma: nat, exp: real -> real) returns (dst: seq<real>)
    requires |src| == h * w && IsPositive(exp)
    ensures dst == Blurred(src, h, w, sigma, exp)
  {
    if h == 0 || w == 0 {
      return [];
    }
    if sigma == 0 {
      return src;
    }
    var kernel := BuildKernel(exp, sigma);
    var temp := new real[h * w];
    var out := new real[h * w];
    HorizontalPass(src, h, w, kernel, 3 * sigma, temp);
    VerticalPass(temp[..], h, w, kernel, 3 * sigma, out);
    dst := out[..];
  }

  // ---- Smoothing stays within the range of its input ----

  lemma {:induction false} SumBetween(f: int -> real, kernel: seq<real>, n: nat, lo: real, hi: real)
    requires AllPositive(kernel) && n <= |kernel| && forall k :: lo <= f(k) <= hi
    ensures lo * Total(kernel, n) <= WeightedSum(f, kernel, n) <= hi * Total(kernel, n)
  {
    if n > 0 {
      SumBetween(f, kernel, n - 1, lo, hi);
      TermBetween(f(n - 1), kernel[n - 1], Total(kernel, n - 1), lo, hi);
    }
  }

  lemma TermBetween(v: real, k: real, t: real, lo: real, hi: real)
    requires lo <= v <= hi && k > 0.0
    ensures lo * t + v * k >= lo * (t + k) && hi * t + v * k <= hi * (t + k)
  {
    NonNegativeProduct(v - lo, k);
    NonNegativeProduct(hi - v, k);
  }

  lemma RowPassWithin(image: seq<real>, h: nat, w: nat, kernel: seq<real>, lo: real, hi: real)
    requires h > 0 && w > 0 && |image| == h * w && IsKernel(kernel) && Within(image, lo, hi)
    ensures Within(RowPass(image, h, w, kernel), lo, hi)
  {
    forall i | 0 <= i < h * w
      ensures lo <= RowSum(image, h, w, kernel, Row(w, i), Column(w, i)) <= hi
    {
      var f := (k: int) => Extended(image, h, w, Row(w, i), Column(w, i) + k - |kernel| / 2);
      forall k: int
        ensures lo <= f(k) <= hi
      {
        assert f(k) == Extended(image, h, w, Row(w, i), Column(w, i) + k - |kernel| / 2);
      }
      SumBetween(f, kernel, |kernel|, lo, hi);
    }
  }

  lemma ColumnPassWithin(image: seq<real>, h: nat, w: nat, kernel: seq<real>, lo: real, hi: real)
    requires h > 0 && w > 0 && |image| == h * w && IsKernel(kernel) && Within(image, lo, hi)
    ensures Within(ColumnPass(image, h, w, kernel), lo, hi)
  {
    forall i | 0 <= i < h * w
      ensures lo <= ColumnSum(image, h, w, kernel, Row(w, i), Column(w, i)) <= hi
    {
      var f := (k: int) => Extended(image, h, w, Row(w, i) + k - |kernel| / 2, Column(w, i));
      forall k: int
        ensures lo <= f(k) <= hi
      {
        assert f(k) == Extended(image, h, w, Row(w, i) + k - |kernel| / 2, Column(w, i));
      }
      SumBetween(f, kernel, |kernel|, lo, hi);
    }
  }

  /** Smoothing stays within the range of its input; in particular it leaves a constant image alone. */
  lemma BlurredWithin(src: seq<real>, h: nat, w: nat, sigma: nat, exp: real -> real, lo: real, hi: real)
    requires |src| == h * w && IsPositive(exp) && Within(src, lo, hi)
    ensures Within(Blurred(src, h, w, sigma, exp), lo, hi)
  {
    if h > 0 && w > 0 && sigma > 0 {
      var kernel := Kernel(exp, sigma);
      KernelIsKernel(exp, sigma);
      RowPassWithin(src, h, w, kernel, lo, hi);
      ColumnPassWithin(RowPass(src, h, w, kernel), h, w, kernel, lo, hi);
    }
  }

  // ---- The order of the two passes does not matter ----

  lemma {:induction false} SumAgrees(f: int -> real, g: int -> real, kernel: seq<real>, n: nat)
    requires n <= |kernel| && forall k :: f(k) == g(k)
    ensures WeightedSum(f, kernel, n) == WeightedSum(g, kernel, n)
  {
    if n > 0 {
      SumAgrees(f, g, kernel, n - 1);
    }
  }

  lemma {:induction false} SumOfSums(f: int -> real, g: int -> real, sum: int -> real, a: real, kernel: seq<real>, n: nat)
    requires n <= |kernel| && forall k :: sum(k) == f(k) + g(k) * a
    ensures WeightedSum(sum, kernel, n) == WeightedSum(f, kernel, n) + WeightedSum(g, kernel, n) * a
  {
    if n > 0 {
      SumOfSums(f, g, sum, a, kernel, n - 1);
      var k := kernel[n - 1];
      assert sum(n - 1) * k == f(n - 1) * k + (g(n - 1) * k) * a;
    }
  }

  lemma {:induction false} SumOfZero(f: int -> real, kernel: seq<real>, n: nat)
    requires n <= |kernel| && forall k :: f(k) == 0.0
    ensures WeightedSum(f, kernel, n) == 0.0
  {
    if n > 0 {
      SumOfZero(f, kernel, n - 1);
    }
  }

  ghost function SumByRows(f: (int, int) -> real, kernel: seq<real>, m: nat, n: nat): real
    requires m <= |kernel| && n <= |kernel|
  {
    WeightedSum(i => WeightedSum(j => f(i, j), kernel, n), kernel, m)
  }

  ghost function SumByColumns(f: (int, int) -> real, kernel: seq<real>, m: nat, n: nat): real
    requires m <= |kernel| && n <= |kernel|
  {
    WeightedSum(j => WeightedSum(i => f(i, j), kernel, m), kernel, n)
  }

  lemma OneMoreRow(f: (int, int) -> real, kernel: seq<real>, m: nat, n: nat)
    requires 0 < m <= |kernel| && n <= |kernel|
    ensures SumByRows(f, kernel, m, n) == SumByRows(f, kernel, m - 1, n) + WeightedSum(j => f(m - 1, j), kernel, n) * kernel[m - 1]
  {
    var inner := (i: int) => WeightedSum(j => f(i, j), kernel, n);
    assert SumByRows(f, kernel, m, n) == SumByRows(f, kernel, m - 1, n) + inner(m - 1) * kernel[m - 1];
  }

  lemma OneMoreTerm(f: (int, int) -> real, kernel: seq<real>, m: nat, n: nat)
    requires 0 < m <= |kernel| && n <= |kernel|
    ensures SumByColumns(f, kernel, m, n) == SumByColumns(f, kernel, m - 1, n) + WeightedSum(j => f(m - 1, j), kernel, n) * kernel[m - 1]
  {
    var outer := (j: int) => WeightedSum(i => f(i, j), kernel, m);
    var before := (j: int) => WeightedSum(i => f(i, j), kernel, m - 1);
    var last := (j: int) => f(m - 1, j);
    SumOfSums(before, last, outer, kernel[m - 1], kernel, n);
  }

  lemma {:induction false} ExchangeSums(f: (int, int) -> real, kernel: seq<real>, m: nat, n: nat)
    requires m <= |kernel| && n <= |kernel|
    ensures SumByRows(f, kernel, m, n) == SumByColumns(f, kernel, m, n)
  {
    if m == 0 {
      SumOfZero(j => WeightedSum(i => f(i, j), kernel, m), kernel, n);
    } else {
      ExchangeSums(f, kernel, m - 1, n);
      OneMoreRow(f, kernel, m, n);
      OneMoreTerm(f, kernel, m, n);
    }
  }

  /** The pixels of the extended image around (y, x), numbered from the upper left corner of the kernel window. */
  ghost function Window(image: seq<real>, h: nat, w: nat, r: nat, y: int, x: int): (int, int) -> real
    requires h > 0 && w > 0 && |image| == h * w
  {
    (i, j) => Extended(image, h, w, y + i - r, x + j - r)
  }

  lemma RowPassExtended(image: seq<real>, h: nat, w: nat, kernel: seq<real>, y: int, x: nat)
    requires h > 0 && |image| == h * w && x < w
    ensures Extended(RowPass(image, h, w, kernel), h, w, y, x) == RowSum(image, h, w, kernel, y, x)
  {
    var line := ClampTo(y, h);
    IndexOf(w, line, x);
    RowFits(h, w, line);
    var f := (k: int) => Extended(image, h, w, line, x + k - |kernel| / 2);
    var g := (k: int) => Extended(image, h, w, y, x + k - |kernel| / 2);
    forall k: int
      ensures f(k) == g(k)
    {
      assert f(k) == Extended(image, h, w, line, x + k - |kernel| / 2);
      assert g(k) == Extended(image, h, w, y, x + k - |kernel| / 2);
    }
    SumAgrees(f, g, kernel, |kernel|);
  }

  lemma ColumnPassExtended(image: seq<real>, h: nat, w: nat, kernel: seq<real>, y: nat, x: int)
    requires w > 0 && |image| == h * w && y < h
    ensures Extended(ColumnPass(image, h, w, kernel), h, w, y, x) == ColumnSum(image, h, w, kernel, y, x)
  {
    var line := ClampTo(x, w);
    IndexOf(w, y, line);
    RowFits(h, w, y);
    var f := (k: int) => Extended(image, h, w, y + k - |kernel| / 2, line);
    var g := (k: int) => Extended(image, h, w, y + k - |kernel| / 2, x);
    forall k: int
      ensures f(k) == g(k)
    {
      assert f(k) == Extended(image, h, w, y + k - |kernel| / 2, line);
      assert g(k) == Extended(image, h, w, y + k - |kernel| / 2, x);
    }
    SumAgrees(f, g, kernel, |kernel|);
  }

  /** Rows first and then columns is the two-dimensional weighted sum over the extended image. */
  lemma RowsThenColumns(image: seq<real>, h: nat, w: nat, kernel: seq<real>, y: nat, x: nat)
    requires h > 0 && w > 0 && |image| == h * w && y < h && x < w
    ensures ColumnSum(RowPass(image, h, w, kernel), h, w, kernel, y, x)
         == SumByRows(Window(image, h, w, |kernel| / 2, y, x), kernel, |kernel|, |kernel|)
  {
    var r, n, window := |kernel| / 2, |kernel|, Window(image, h, w, |kernel| / 2, y, x);
    var f := (i: int) => Extended(RowPass(image, h, w, kernel), h, w, y + i - r, x);
    var g := (i: int) => WeightedSum(j => window(i, j), kernel, n);
    forall i: int
      ensures f(i) == g(i)
    {
      RowPassExtended(image, h, w, kernel, y + i - r, x);
      SumAgrees(j => Extended(image, h, w, y + i - r, x + j - r), j => window(i, j), kernel, n);
    }
    SumAgrees(f, g, kernel, n);
  }

  lemma ColumnsThenRows(image: seq<real>, h: nat, w: nat, kernel: seq<real>, y: nat, x: nat)
    requires h > 0 && w > 0 && |image| == h * w && y < h && x < w
    ensures RowSum(ColumnPass(image, h, w, kernel), h, w, kernel, y, x)
         == SumByColumns(Window(image, h, w, |kernel| / 2, y, x), kernel, |kernel|, |kernel|)
  {
    var r, n, window := |kernel| / 2, |kernel|, Window(image, h, w, |kernel| / 2, y, x);
    var f := (j: int) => Extended(ColumnPass(image, h, w, kernel), h, w, y, x + j - r);
    var g := (j: int) => WeightedSum(i => window(i, j), kernel, n);
    forall j: int
      ensures f(j) == g(j)
    {
      ColumnPassExtended(image, h, w, kernel, y, x + j - r);
      SumAgrees(i => Extended(image, h, w, y + i - r, x + j - r), i => window(i, j), kernel, n);
    }
    SumAgrees(f, g, kernel, n);
  }

  /** Blurring columns first gives the same image as blurring rows first. */
  lemma PassesCommute(image: seq<real>, h: nat, w: nat, kernel: seq<real>)
    requires h > 0 && w > 0 && |image| == h * w
    ensures ColumnPass(RowPass(image, h, w, kernel), h, w, kernel) == RowPass(ColumnPass(image, h, w, kernel), h, w, kernel)
  {
    forall i | 0 <= i < h * w
      ensures ColumnSum(RowPass(image, h, w, kernel), h, w, kernel, Row(w, i), Column(w, i))
           == RowSum(ColumnPass(image, h, w, kernel), h, w, kernel, Row(w, i), Column(w, i))
    {
      IndexInGrid(h, w, i);
      RowsThenColumns(image, h, w, kernel, Row(w, i), Column(w, i));
      ColumnsThenRows(image, h, w, kernel, Row(w, i), Column(w, i));
      ExchangeSums(Window(image, h, w, |kernel| / 2, Row(w, i), Column(w, i)), kernel, |kernel|, |kernel|);
    }
  }

  // ---- A single bright pixel ----

  lemma {:induction false} SumOfSpike(f: int -> real, kernel: seq<real>, n: nat, m: int, v: real)
    requires n <= |kernel| && forall k :: f(k) == if k == m then v else 0.0
    ensures WeightedSum(f, kernel, n) == if 0 <= m < n then Product(v, kernel[m]) else 0.0
  {
    if n > 0 {
      SumOfSpike(f, kernel, n - 1, m, v);
    }
  }

  /** One inside the image, away from its border, and zero everywhere else. */
  ghost predicate IsSpike(image: seq<real>, h: nat, w: nat, p: nat, q: nat) {
    && |image| == h * w && 0 < p && p + 1 < h && 0 < q && q + 1 < w
    && forall y: nat, x: nat | y < h && x < w :: At(image, h, w, y, x) == if y == p && x == q then 1.0 else 0.0
  }

  /** What a kernel with that radius puts at an offset. */
  function Spread(kernel: seq<real>, offset: int): real {
    if 0 <= |kernel| / 2 + offset < |kernel| then kernel[|kernel| / 2 + offset] else 0.0
  }

  lemma RowOfSpike(image: seq<real>, h: nat, w: nat, kernel: seq<real>, p: nat, q: nat, y: int, x: nat)
    requires h > 0 && IsSpike(image, h, w, p, q) && x < w
    ensures RowSum(image, h, w, kernel, y, x) == if y == p then Spread(kernel, q - x) else 0.0
  {
    var f := (k: int) => Extended(image, h, w, y, x + k - |kernel| / 2);
    var v := if y == p then 1.0 else 0.0;
    forall k: int
      ensures f(k) == if k == |kernel| / 2 + (q - x) then v else 0.0
    {
      assert f(k) == Extended(image, h, w, y, x + k - |kernel| / 2);
    }
    SumOfSpike(f, kernel, |kernel|, |kernel| / 2 + (q - x), v);
  }

  lemma ColumnOfSpike(image: seq<real>, h: nat, w: nat, kernel: seq<real>, p: nat, q: nat, y: int, x: nat)
    requires h > 0 && IsSpike(image, h, w, p, q) && x < w
    ensures ColumnSum(RowPass(image, h, w, kernel), h, w, kernel, y, x) == Product(Spread(kernel, q - x), Spread(kernel, p - y))
  {
    var rows, v := RowPass(image, h, w, kernel), Spread(kernel, q - x);
    var f := (k: int) => Extended(rows, h, w, y + k - |kernel| / 2, x);
    forall k: int
      ensures f(k) == if k == |kernel| / 2 + (p - y) then v else 0.0
    {
      assert f(k) == Extended(rows, h, w, y + k - |kernel| / 2, x);
      RowPassExtended(image, h, w, kernel, y + k - |kernel| / 2, x);
      RowOfSpike(image, h, w, kernel, p, q, y + k - |kernel| / 2, x);
    }
    SumOfSpike(f, kernel, |kernel|, |kernel| / 2 + (p - y), v);
  }

  /** A single bright pixel is blurred into the kernel times the kernel, centred on it. */
  lemma SpikeSpreads(image: seq<real>, h: nat, w: nat, sigma: nat, exp: real -> real, p: nat, q: nat, y: nat, x: nat)
    requires IsPositive(exp) && sigma > 0 && IsSpike(image, h, w, p, q) && y < h && x < w
    ensures At(Blurred(image, h, w, sigma, exp), h, w, y, x)
         == Product(Spread(Kernel(exp, sigma), q - x), Spread(Kernel(exp, sigma), p - y))
  {
    var kernel := Kernel(exp, sigma);
    ColumnOfSpike(image, h, w, kernel, p, q, y, x);
    ColumnPassExtended(RowPass(image, h, w, kernel), h, w, kernel, y, x);
    assert ClampTo(y, h) == y && ClampTo(x, w) == x;
  }

  lemma SmallerProduct(a: real, b: real, top: real)
    requires 0.0 <= a <= top && 0.0 <= b <= top && (a < top || b < top)
    ensures Product(a, b) < Product(top, top)
  {
    if a < top {
      NonNegativeProduct(a, top - b);
      PositiveProduct(top - a, top, (top - a) * top);
    } else {
      PositiveProduct(top, top - b, top * (top - b));
    }
  }

  /** Blurring keeps the brightest point of a single bright pixel where it was. */
  lemma SpikeStaysBrightest(image: seq<real>, h: nat, w: nat, sigma: nat, exp: real -> real, p: nat, q: nat, y: nat, x: nat)
    requires IsPositive(exp) && IsIncreasing(exp) && IsSpike(image, h, w, p, q) && y < h && x < w && (y != p || x != q)
    ensures At(Blurred(image, h, w, sigma, exp), h, w, y, x) < At(Blurred(image, h, w, sigma, exp), h, w, p, q)
  {
    if sigma > 0 {
      var kernel := Kernel(exp, sigma);
      KernelIsKernel(exp, sigma);
      KernelPeaks(exp, sigma);
      SpikeSpreads(image, h, w, sigma, exp, p, q, y, x);
      SpikeSpreads(image, h, w, sigma, exp, p, q, p, q);
      SpreadIsLargest(kernel, q - x);
      SpreadIsLargest(kernel, p - y);
      SmallerProduct(Spread(kernel, q - x), Spread(kernel, p - y), Spread(kernel, 0));
    }
  }

  lemma SpreadIsLargest(kernel: seq<real>, offset: int)
    requires |kernel| > 0 && AllPositive(kernel) && PeaksInTheMiddle(kernel)
    ensures 0.0 <= Spread(kernel, offset) <= Spread(kernel, 0)
    ensures offset != 0 ==> Spread(kernel, offset) < Spread(kernel, 0)
  {
    if offset != 0 && 0 <= |kernel| / 2 + offset < |kernel| {
      assert Distance(|kernel| / 2, |kernel| / 2) < Distance(|kernel| / 2 + offset, |kernel| / 2);
    }
  }

  // ---- The border is repeated outwards ----

  /** `pad` is the image with one more line on every side, each a copy of its neighbour. */
  ghost predicate IsPadded(pad: seq<real>, image: seq<real>, h: nat, w: nat)
    requires h > 0 && w > 0 && |pad| == (h + 2) * (w + 2) && |image| == h * w
  {
    && (forall y: nat, x: nat | y < h && x < w :: At(image, h, w, y, x) == At(pad, h + 2, w + 2, y + 1, x + 1))
    && SameRow(pad, h + 2, w + 2, 0, 1) && SameRow(pad, h + 2, w + 2, h + 1, h)
    && SameColumn(pad, h + 2, w + 2, 0, 1) && SameColumn(pad, h + 2, w + 2, w + 1, w)
  }

  ghost predicate SameRow(image: seq<real>, h: nat, w: nat, a: nat, b: nat)
    requires |image| == h * w && a < h && b < h
  {
    forall x: nat | x < w :: At(image, h, w, a, x) == At(image, h, w, b, x)
  }

  ghost predicate SameColumn(image: seq<real>, h: nat, w: nat, a: nat, b: nat)
    requires |image| == h * w && a < w && b < w
  {
    forall y: nat | y < h :: At(image, h, w, y, a) == At(image, h, w, y, b)
  }

  lemma PaddedExtendsAlike(pad: seq<real>, image: seq<real>, h: nat, w: nat, y: int, x: int)
    requires h > 0 && w > 0 && |pad| == (h + 2) * (w + 2) && |image| == h * w && IsPadded(pad, image, h, w)
    ensures Extended(pad, h + 2, w + 2, y + 1, x + 1) == Extended(image, h, w, y, x)
  {
    var line, column := ClampTo(y, h), ClampTo(x, w);
    assert At(image, h, w, line, column) == At(pad, h + 2, w + 2, line + 1, column + 1);
    var row := ClampTo(y + 1, h + 2);
    assert At(pad, h + 2, w + 2, row, column + 1) == At(pad, h + 2, w + 2, line + 1, column + 1);
    assert At(pad, h + 2, w + 2, row, ClampTo(x + 1, w + 2)) == At(pad, h + 2, w + 2, row, column + 1);
  }

  lemma SumByRowsAgrees(f: (int, int) -> real, g: (int, int) -> real, kernel: seq<real>)
    requires forall i, j :: f(i, j) == g(i, j)
    ensures SumByRows(f, kernel, |kernel|, |kernel|) == SumByRows(g, kernel, |kernel|, |kernel|)
  {
    var n := |kernel|;
    var rows, others := (i: int) => WeightedSum(j => f(i, j), kernel, n), (i: int) => WeightedSum(j => g(i, j), kernel, n);
    forall i: int
      ensures rows(i) == others(i)
    {
      SumAgrees(j => f(i, j), j => g(i, j), kernel, n);
    }
    SumAgrees(rows, others, kernel, n);
  }

  lemma BlurredIsWindowSum(image: seq<real>, h: nat, w: nat, sigma: nat, exp: real -> real, y: nat, x: nat)
    requires sigma > 0 && |image| == h * w && IsPositive(exp) && y < h && x < w
    ensures At(Blurred(image, h, w, sigma, exp), h, w, y, x)
         == SumByRows(Window(image, h, w, 3 * sigma, y, x), Kernel(exp, sigma), 6 * sigma + 1, 6 * sigma + 1)
  {
    var kernel := Kernel(exp, sigma);
    RowsThenColumns(image, h, w, kernel, y, x);
    ColumnPassExtended(RowPass(image, h, w, kernel), h, w, kernel, y, x);
    assert ClampTo(y, h) == y && ClampTo(x, w) == x;
  }

  /** Repeating the border lines outside an image changes no blurred pixel. */
  lemma PaddingChangesNothing(pad: seq<real>, image: seq<real>, h: nat, w: nat, sigma: nat, exp: real -> real, y: nat, x: nat)
    requires h > 0 && w > 0 && |pad| == (h + 2) * (w + 2) && |image| == h * w && IsPadded(pad, image, h, w)
    requires IsPositive(exp) && y < h && x < w
    ensures At(Blurred(pad, h + 2, w + 2, sigma, exp), h + 2, w + 2, y + 1, x + 1) == At(Blurred(image, h, w, sigma, exp), h, w, y, x)
  {
    if sigma > 0 {
      var r := 3 * sigma;
      forall i: int, j: int
        ensures Window(pad, h + 2, w + 2, r, y + 1, x + 1)(i, j) == Window(image, h, w, r, y, x)(i, j)
      {
        PaddedExtendsAlike(pad, image, h, w, y + i - r, x + j - r);
      }
      SumByRowsAgrees(Window(pad, h + 2, w + 2, r, y + 1, x + 1), Window(image, h, w, r, y, x), Kernel(exp, sigma));
      BlurredIsWindowSum(pad, h + 2, w + 2, sigma, exp, y + 1, x + 1);
      BlurredIsWindowSum(image, h, w, sigma, exp, y, x);
    }
  }
}
