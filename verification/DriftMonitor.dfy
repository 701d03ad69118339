/** The sliding window of displacements and its drift alarm (src/detection/coreset_evolution.cpp, CheckDrift). */
module DriftMonitor {
  import opened Vectors

  const WINDOW: nat := 5

  function Sum(h: seq<real>): real {
    if h == [] then 0.0 else Sum(h[..|h| - 1]) + h[|h| - 1]
  }

  function Squared(x: real): real {
    x * x
  }

  function SumOfSquares(h: seq<real>, mean: real): real {
    if h == [] then 0.0 else SumOfSquares(h[..|h| - 1], mean) + Squared(h[|h| - 1] - mean)
  }

  function Mean(h: seq<real>): real
    requires h != []
  {
    Sum(h) / |h| as real
  }

  function Deviation(sqrt: real -> real, h: seq<real>): real
    requires h != []
  {
    sqrt(SumOfSquares(h, Mean(h)) / |h| as real)
  }

  /** The last three displacements all exceed the mean by two standard deviations. */
  predicate Alarm(sqrt: real -> real, h: seq<real>) {
    && |h| >= 3
    && Deviation(sqrt, h) > 0.0
    && h[|h| - 1] > Mean(h) + 2.0 * Deviation(sqrt, h)
    && h[|h| - 2] > Mean(h) + 2.0 * Deviation(sqrt, h)
    && h[|h| - 3] > Mean(h) + 2.0 * Deviation(sqrt, h)
  }

  function Pushed(h: seq<real>, displacement: real): (next: seq<real>)
    ensures |h| <= WINDOW ==> 1 <= |next| <= WINDOW
  {
    var longer := h + [displacement];
    if |longer| > WINDOW then longer[1..] else longer
  }

  /** What the window holds after these displacements, from an empty one. */
  ghost function WindowAfter(displacements: seq<real>): seq<real> {
    if displacements == [] then [] else Pushed(WindowAfter(displacements[..|displacements| - 1]), displacements[|displacements| - 1])
  }

  ghost function LastFive(displacements: seq<real>): seq<real> {
    if |displacements| <= 5 then displacements else displacements[|displacements| - 5..]
  }

  lemma PushedIsLast(front: seq<real>, last: real)
    ensures Pushed(LastFive(front), last) == LastFive(front + [last])
  {
    var all := front + [last];
    if |front| > 5 {
      assert LastFive(front) + [last] == all[|front| - 5..];
    }
    if |front| >= 5 {
      assert Pushed(LastFive(front), last) == (LastFive(front) + [last])[1..];
    }
  }

  /** The window holds the last five displacements in order. */
  lemma {:induction false} WindowHoldsLast(displacements: seq<real>)
    ensures WindowAfter(displacements) == LastFive(displacements)
  {
    if displacements != [] {
      var front, last := displacements[..|displacements| - 1], displacements[|displacements| - 1];
      assert front + [last] == displacements;
      assert WindowAfter(displacements) == Pushed(WindowAfter(front), last);
      WindowHoldsLast(front);
      PushedIsLast(front, last);
    }
  }

  method DriftAlarm(sqrt: real -> real, h: seq<real>) returns (alarm: bool)
    ensures alarm == Alarm(sqrt, h)
  {
    if |h| < 3 {
      return false;
    }
    var sum := 0.0;
    for i: nat := 0 to |h|
      invariant sum == Sum(h[..i])
    {
      assert h[..i + 1][..i] == h[..i];
      sum := sum + h[i];
    }
    assert h[..|h|] == h;
    var mean := sum / |h| as real;
    var squares := 0.0;
    for i: nat := 0 to |h|
      invariant squares == SumOfSquares(h[..i], mean)
    {
      assert h[..i + 1][..i] == h[..i];
      var diff := h[i] - mean;
      squares := squares + diff * diff;
    }
    assert h[..|h|] == h;
    var deviation := sqrt(squares / |h| as real);
    if deviation > 0.0 {
      var threshold := mean + 2.0 * deviation;
      alarm := h[|h| - 1] > threshold && h[|h| - 2] > threshold && h[|h| - 3] > threshold;
    } else {
      alarm := false;
    }
  }

  // ---- How long a window the alarm needs ----

  /** The deviations from a value, added up. */
  ghost function SumOfDeviations(h: seq<real>, mean: real): real {
    if h == [] then 0.0 else SumOfDeviations(h[..|h| - 1], mean) + (h[|h| - 1] - mean)
  }

  lemma {:induction false} DeviationsOfSum(h: seq<real>, mean: real)
    ensures SumOfDeviations(h, mean) == Sum(h) - mean * |h| as real
  {
    if h != [] {
      DeviationsOfSum(h[..|h| - 1], mean);
      assert mean * |h| as real == mean * (|h| - 1) as real + mean;
    }
  }

  lemma {:induction false} SumOfSquaresNonNegative(h: seq<real>, mean: real)
    ensures SumOfSquares(h, mean) >= 0.0
  {
    if h != [] {
      SumOfSquaresNonNegative(h[..|h| - 1], mean);
      var d := h[|h| - 1] - mean;
      SquareSign(d, Squared(d));
    }
  }

  ghost predicate SquareAtMost(d: real, m: real, q: real) {
    Squared(d) <= m * q
  }

  /** One more term in the inequality between the square of a sum and the sum of squares. */
  lemma OneMoreSquare(m: real, d: real, q: real, e: real)
    requires m > 0.0 && SquareAtMost(d, m, q)
    ensures SquareAtMost(d + e, m + 1.0, q + Squared(e))
  {
    var gap := m * Squared(e) + q - 2.0 * (d * e);
    var w := m * e - d;
    SquareSign(w, Squared(w));
    assert m * gap == m * (m * Squared(e)) + m * q - 2.0 * (m * (d * e));
    assert Squared(w) == m * (m * Squared(e)) + Squared(d) - 2.0 * (m * (d * e));
    ScaleOrder(gap, 0.0, m);
    assert Squared(d + e) == Squared(d) + 2.0 * (d * e) + Squared(e);
    assert (m + 1.0) * (q + Squared(e)) == m * q + m * Squared(e) + q + Squared(e);
  }

  lemma {:induction false} SquareOfSum(h: seq<real>, mean: real)
    ensures SquareAtMost(SumOfDeviations(h, mean), |h| as real, SumOfSquares(h, mean))
  {
    if |h| == 1 {
      SingleSquare(h, mean);
    } else if |h| > 1 {
      var front, e := h[..|h| - 1], h[|h| - 1] - mean;
      SquareOfSum(front, mean);
      OneMoreSquare(|front| as real, SumOfDeviations(front, mean), SumOfSquares(front, mean), e);
      assert |h| as real == |front| as real + 1.0;
    }
  }

  lemma SingleSquare(h: seq<real>, mean: real)
    requires |h| == 1
    ensures SumOfDeviations(h, mean) == h[0] - mean && SumOfSquares(h, mean) == Squared(h[0] - mean)
    ensures SquareAtMost(SumOfDeviations(h, mean), 1.0, SumOfSquares(h, mean))
  {
    assert h[..0] == [];
    assert SumOfDeviations(h, mean) == SumOfDeviations(h[..0], mean) + (h[0] - mean);
    assert SumOfSquares(h, mean) == SumOfSquares(h[..0], mean) + Squared(h[0] - mean);
  }

  /** The last three deviations, split off the sums. */
  lemma SplitLastThree(h: seq<real>, mean: real) returns (d: real, q: real)
    requires |h| >= 3
    ensures d == SumOfDeviations(h[..|h| - 3], mean) && q == SumOfSquares(h[..|h| - 3], mean)
    ensures SumOfDeviations(h, mean) == d + (h[|h| - 3] - mean) + (h[|h| - 2] - mean) + (h[|h| - 1] - mean)
    ensures SumOfSquares(h, mean) == q + Squared(h[|h| - 3] - mean) + Squared(h[|h| - 2] - mean) + Squared(h[|h| - 1] - mean)
  {
    var n := |h|;
    d, q := SumOfDeviations(h[..n - 3], mean), SumOfSquares(h[..n - 3], mean);
    assert h[..n - 1][..n - 2] == h[..n - 2] && h[..n - 2][..n - 3] == h[..n - 3];
    assert SumOfDeviations(h, mean) == SumOfDeviations(h[..n - 1], mean) + (h[n - 1] - mean);
    assert SumOfDeviations(h[..n - 1], mean) == SumOfDeviations(h[..n - 2], mean) + (h[n - 2] - mean);
    assert SumOfDeviations(h[..n - 2], mean) == SumOfDeviations(h[..n - 3], mean) + (h[n - 3] - mean);
    assert SumOfSquares(h, mean) == SumOfSquares(h[..n - 1], mean) + Squared(h[n - 1] - mean);
    assert SumOfSquares(h[..n - 1], mean) == SumOfSquares(h[..n - 2], mean) + Squared(h[n - 2] - mean);
    assert SumOfSquares(h[..n - 2], mean) == SumOfSquares(h[..n - 3], mean) + Squared(h[n - 3] - mean);
  }

  /** Three times the squares of three numbers are at least the square of their sum. */
  lemma ThreeSquares(a: real, b: real, c: real)
    ensures SquareAtMost(a + b + c, 3.0, Squared(a) + Squared(b) + Squared(c))
  {
    OneMoreSquare(1.0, a, Squared(a), b);
    OneMoreSquare(2.0, a + b, Squared(a) + Squared(b), c);
  }

  /** Three deviations above 2s, and m others that make up for them, within m + 3 times the square of s: only for m above 12. */
  lemma TwelveOthers(m: real, d: real, q: real, rest: real, s: real)
    requires s > 0.0 && m >= 0.0 && d > 6.0 * s && SquareAtMost(d, m, rest) && SquareAtMost(d, 3.0, q)
    requires rest + q == (m + 3.0) * Squared(s)
    ensures m > 12.0
  {
    var dd, ss := Squared(d), Squared(s);
    PositiveProduct(s, s, ss);
    assert dd > 36.0 * ss by {
      var more := d - 6.0 * s;
      PositiveProduct(s, more, s * more);
      PositiveProduct(more, more, Squared(more));
      assert Squared(6.0 * s + more) == 36.0 * Squared(s) + 12.0 * (s * more) + Squared(more);
    }
    OthersCount(m, dd, q, rest, ss);
  }

  lemma OthersCount(m: real, dd: real, q: real, rest: real, ss: real)
    requires ss > 0.0 && m >= 0.0 && dd > 36.0 * ss && dd <= m * rest && dd <= 3.0 * q && rest + q == (m + 3.0) * ss
    ensures m > 12.0
  {
    var t := (m + 3.0) * ss;
    PositiveProduct(m + 3.0, ss, t);
    var mt := m * t;
    assert mt == m * rest + m * q by {
      assert m * (rest + q) == m * rest + m * q;
    }
    NonNegativeTimes(m, 3.0 * q - dd);
    var md := m * dd;
    assert 3.0 * mt >= 3.0 * dd + md by {
      assert m * (3.0 * q - dd) == 3.0 * (m * q) - md;
    }
    CancelFactor(m, dd, ss, t, mt, md);
  }

  lemma NonNegativeTimes(m: real, x: real)
    requires m >= 0.0 && x >= 0.0
    ensures m * x >= 0.0
  {
  }

  lemma CancelFactor(m: real, dd: real, ss: real, t: real, mt: real, md: real)
    requires m >= 0.0 && t > 0.0 && dd > 36.0 * ss && t == (m + 3.0) * ss && mt == m * t && md == m * dd
    requires 3.0 * mt >= 3.0 * dd + md
    ensures m > 12.0
  {
    var more := (m + 3.0) * (dd - 36.0 * ss);
    PositiveProduct(m + 3.0, dd - 36.0 * ss, more);
    assert more == 3.0 * dd + md - 36.0 * t;
    var high := (m - 12.0) * t;
    assert high == mt - 12.0 * t;
    ScaleOrder(0.0, m - 12.0, t);
  }

  lemma MeanCentres(h: seq<real>)
    requires h != []
    ensures SumOfDeviations(h, Mean(h)) == 0.0
  {
    DeviationsOfSum(h, Mean(h));
    QuotientTimes(Sum(h), |h| as real);
  }

  /** The squares of n deviations add up to n times the square of s. */
  ghost predicate IsSpread(n: real, s: real, squares: real) {
    n * Squared(s) == squares
  }

  lemma RootOfMean(sqrt: real -> real, squares: real, n: real)
    requires IsSquareRoot(sqrt) && squares >= 0.0 && n > 0.0
    ensures sqrt(squares / n) >= 0.0 && IsSpread(n, sqrt(squares / n), squares)
  {
    var v := squares / n;
    QuotientTimes(squares, n);
    ScaleOrder(v, 0.0, n);
    assert Squared(sqrt(v)) == v;
  }

  lemma DeviationFacts(sqrt: real -> real, h: seq<real>)
    requires IsSquareRoot(sqrt) && h != []
    ensures Deviation(sqrt, h) >= 0.0 && IsSpread(|h| as real, Deviation(sqrt, h), SumOfSquares(h, Mean(h)))
  {
    SumOfSquaresNonNegative(h, Mean(h));
    RootOfMean(sqrt, SumOfSquares(h, Mean(h)), |h| as real);
  }

  /** Three values in a row can exceed the mean by two standard deviations only if there are at least thirteen others. */
  lemma AlarmNeedsSixteen(sqrt: real -> real, h: seq<real>)
    requires IsSquareRoot(sqrt) && Alarm(sqrt, h)
    ensures |h| >= 16
  {
    MeanCentres(h);
    DeviationFacts(sqrt, h);
    LastThreeAbove(h, Mean(h), Deviation(sqrt, h));
  }

  lemma LastThreeAbove(h: seq<real>, mean: real, s: real)
    requires |h| >= 3 && s > 0.0 && SumOfDeviations(h, mean) == 0.0 && IsSpread(|h| as real, s, SumOfSquares(h, mean))
    requires h[|h| - 1] > mean + 2.0 * s && h[|h| - 2] > mean + 2.0 * s && h[|h| - 3] > mean + 2.0 * s
    ensures |h| >= 16
  {
    var n := |h|;
    var d, rest := SplitLastThree(h, mean);
    SquareOfSum(h[..n - 3], mean);
    ThreeFar(h[n - 3] - mean, h[n - 2] - mean, h[n - 1] - mean, d, rest, (n - 3) as real, n as real, s);
  }

  lemma ThreeFar(a: real, b: real, c: real, d: real, rest: real, m: real, n: real, s: real)
    requires s > 0.0 && a > 2.0 * s && b > 2.0 * s && c > 2.0 * s && m >= 0.0 && n == m + 3.0
    requires d + a + b + c == 0.0 && SquareAtMost(d, m, rest)
    requires IsSpread(n, s, rest + Squared(a) + Squared(b) + Squared(c))
    ensures m > 12.0
  {
    OppositeSquare(d, a + b + c, m, rest);
    ThreeSquares(a, b, c);
    TwelveOthers(m, a + b + c, Squared(a) + Squared(b) + Squared(c), rest, s);
  }

  lemma OppositeSquare(d: real, e: real, m: real, q: real)
    requires d + e == 0.0 && SquareAtMost(d, m, q)
    ensures SquareAtMost(e, m, q)
  {
    assert d == -e;
    assert Squared(-e) == Squared(e);
  }

  /** In the window that is kept the alarm never goes off. */
  lemma AlarmNeverGoesOff(sqrt: real -> real, h: seq<real>)
    requires IsSquareRoot(sqrt) && |h| <= WINDOW
    ensures !Alarm(sqrt, h)
  {
    if Alarm(sqrt, h) {
      AlarmNeedsSixteen(sqrt, h);
    }
  }

  /** Nothing moves, and then three displacements of n. */
  function LateJump(n: nat): (h: seq<real>)
    requires n >= 3
    ensures |h| == n
  {
    seq(n, i => if i < n - 3 then 0.0 else n as real)
  }

  lemma {:induction false} StillPart(n: nat, k: nat)
    requires n >= 3 && k <= n - 3
    ensures Sum(LateJump(n)[..k]) == 0.0 && SumOfSquares(LateJump(n)[..k], 3.0) == 9.0 * k as real
  {
    if k > 0 {
      StillPart(n, k - 1);
      assert LateJump(n)[..k][..k - 1] == LateJump(n)[..k - 1];
    }
  }

  lemma LateJumpSums(n: nat)
    requires n >= 3
    ensures Sum(LateJump(n)) == 3.0 * n as real
    ensures SumOfSquares(LateJump(n), 3.0) == 9.0 * (n - 3) as real + 3.0 * Squared((n - 3) as real)
  {
    var h := LateJump(n);
    StillPart(n, n - 3);
    var d, q := SplitLastThree(h, 3.0);
    DeviationsOfSum(h, 3.0);
    DeviationsOfSum(h[..n - 3], 3.0);
  }

  lemma LateJumpMean(n: nat)
    requires n >= 3
    ensures Mean(LateJump(n)) == 3.0
  {
    LateJumpSums(n);
    RatioIs(3.0 * n as real, n as real, 3.0);
  }

  lemma LateJumpSetsOffAlarm(sqrt: real -> real, n: nat)
    requires IsSquareRoot(sqrt) && n >= 16
    ensures Alarm(sqrt, LateJump(n))
  {
    var h, m := LateJump(n), (n - 3) as real;
    LateJumpSums(n);
    LateJumpMean(n);
    DeviationFacts(sqrt, h);
    JumpExceeds(m, Deviation(sqrt, h));
  }

  lemma JumpExceeds(m: real, s: real)
    requires m > 12.0 && s >= 0.0 && IsSpread(m + 3.0, s, 9.0 * m + 3.0 * Squared(m))
    ensures 0.0 < s && 2.0 * s < m
  {
    var ss := Squared(s);
    assert (m + 3.0) * (3.0 * m) == 9.0 * m + 3.0 * Squared(m);
    ScaleOrder(ss, 3.0 * m, m + 3.0);
    var over := m * (m - 12.0);
    PositiveProduct(m, m - 12.0, over);
    assert (m - 2.0 * s) * (m + 2.0 * s) == Squared(m) - 4.0 * ss == over;
    ScaleOrder(0.0, m - 2.0 * s, m + 2.0 * s);
  }

  /** The alarm can go off in a window of that length exactly from sixteen on. */
  lemma AlarmReachableExactlyWhen(sqrt: real -> real, n: nat)
    requires IsSquareRoot(sqrt)
    ensures (exists h :: |h| == n && Alarm(sqrt, h)) <==> n >= 16
  {
    if n >= 16 {
      LateJumpSetsOffAlarm(sqrt, n);
    }
    if h :| |h| == n && Alarm(sqrt, h) {
      AlarmNeedsSixteen(sqrt, h);
    }
  }
}
