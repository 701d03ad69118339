/** Cholesky factorisation and the two triangular solves (src/tuning/bayesian_optimizer.cpp). */
module Cholesky {
  import opened Vectors

  type Matrix = seq<Vector>

  ghost predicate Square(m: Matrix, n: nat) {
    |m| == n && forall i :: 0 <= i < n ==> |m[i]| == n
  }

  ghost predicate Symmetric(k: Matrix, n: nat)
    requires Square(k, n)
  {
    forall i, j :: 0 <= i < n && 0 <= j < n ==> k[i][j] == k[j][i]
  }

  /** Row r is lower triangular at index i with a positive diagonal entry. */
  ghost predicate TriangularRow(r: Vector, i: nat) {
    i < |r| && r[i] > 0.0 && forall j :: i < j < |r| ==> r[j] == 0.0
  }

  ghost predicate Triangular(l: Matrix, m: nat, n: nat) {
    m <= |l| && forall i :: 0 <= i < m ==> |l[i]| == n && TriangularRow(l[i], i)
  }

  /** L * L^T = K, entry by entry. */
  ghost predicate Factors(l: Matrix, k: Matrix, n: nat)
    requires Square(l, n) && Square(k, n)
  {
    forall i, j :: 0 <= i < n && 0 <= j < n ==> Dot(l[i], l[j]) == k[i][j]
  }

  ghost predicate IsFactor(l: Matrix, k: Matrix, n: nat)
    requires Square(k, n)
  {
    Square(l, n) && Triangular(l, n, n) && Factors(l, k, n)
  }

  /** x[0] * l[0] + ... + x[m-1] * l[m-1]; with all rows this is L^T * x. */
  ghost function Combine(l: Matrix, x: Vector, m: nat, n: nat): (r: Vector)
    requires m <= |l| && m <= |x| && forall i :: 0 <= i < m ==> |l[i]| == n
    ensures |r| == n
  {
    if m == 0 then Zeros(n) else Axpy(Combine(l, x, m - 1, n), x[m - 1], l[m - 1])
  }

  /** K * x. */
  ghost function Times(k: Matrix, x: Vector, n: nat): (r: Vector)
    requires Square(k, n) && |x| == n
    ensures |r| == n
  {
    seq(n, i requires 0 <= i < n => Dot(k[i], x))
  }

  /** x^T * K * x. */
  ghost function Quadratic(k: Matrix, x: Vector, n: nat): real
    requires Square(k, n) && |x| == n
  {
    Dot(Times(k, x, n), x)
  }

  ghost predicate PositiveDefinite(k: Matrix, n: nat)
    requires Square(k, n)
  {
    forall x {:trigger Quadratic(k, x, n)} :: |x| == n && x != Zeros(n) ==> Quadratic(k, x, n) > 0.0
  }

  // ---- Laws of the combination ----

  lemma {:induction false} DotZero(u: Vector, v: Vector, from: nat, n: nat)
    requires from <= n <= |u| && n <= |v|
    requires forall j :: from <= j < n ==> u[j] == 0.0 || v[j] == 0.0
    ensures DotTo(u, v, n) == DotTo(u, v, from)
  {
    if from < n {
      DotZero(u, v, from, n - 1);
      assert u[n - 1] * v[n - 1] == 0.0;
    }
  }

  /** If row k holds the inner products of u with the rows of l, then k . x = u . (L^T x). */
  lemma {:induction false} DotOfCombine(l: Matrix, u: Vector, k: Vector, x: Vector, m: nat, n: nat)
    requires m <= |l| && m <= |x| && m <= |k| && |u| == n && forall i :: 0 <= i < m ==> |l[i]| == n
    requires forall i :: 0 <= i < m ==> Dot(u, l[i]) == k[i]
    ensures DotTo(k, x, m) == Dot(u, Combine(l, x, m, n))
  {
    if m == 0 {
      DotZero(u, Zeros(n), 0, n);
    } else {
      var rest := Combine(l, x, m - 1, n);
      DotOfCombine(l, u, k, x, m - 1, n);
      DotToSymmetric(u, Axpy(rest, x[m - 1], l[m - 1]), n);
      DotToAxpy(rest, x[m - 1], l[m - 1], u, n);
      DotToSymmetric(rest, u, n);
      DotToSymmetric(l[m - 1], u, n);
      assert x[m - 1] * k[m - 1] == k[m - 1] * x[m - 1];
    }
  }

  /** x^T K x = |L^T x|^2. */
  lemma QuadraticIsSquare(l: Matrix, k: Matrix, x: Vector, n: nat)
    requires Square(l, n) && Square(k, n) && Factors(l, k, n) && |x| == n
    ensures Quadratic(k, x, n) == Dot(Combine(l, x, n, n), Combine(l, x, n, n))
  {
    var c := Combine(l, x, n, n);
    var kx := Times(k, x, n);
    forall i | 0 <= i < n
      ensures Dot(c, l[i]) == kx[i]
    {
      DotOfCombine(l, l[i], k[i], x, n, n);
      DotToSymmetric(c, l[i], n);
    }
    DotOfCombine(l, c, kx, x, n, n);
  }

  // ---- The factorisation ----

  /** One row of the double loop; rows 0 .. i-1 of l are finished. `pivot` is the last sum computed. */
  method CholeskyRow(k: Vector, l: Matrix, i: nat, n: nat, sqrt: real -> real) returns (ok: bool, row: Vector, ghost pivot: real)
    requires IsSquareRoot(sqrt) && i < n && |k| == n && Triangular(l, i, n)
    ensures |row| == n && forall j :: 0 <= j < i ==> Dot(row, l[j]) == k[j]
    ensures forall j :: i < j < n ==> row[j] == 0.0
    ensures ok ==> row[i] > 0.0 && Dot(row, row) == k[i]
    ensures !ok ==> row[i] == 0.0 && Dot(row, row) + pivot == k[i] && pivot <= 0.0
  {
    row := seq(n, _ => 0.0);
    for j := 0 to i
      invariant |row| == n && forall m :: j <= m < n ==> row[m] == 0.0
      invariant forall m :: 0 <= m < j ==> Dot(row, l[m]) == k[m]
    {
      var sum := k[j];
      for m := 0 to j
        invariant sum == k[j] - DotTo(row, l[j], m)
      {
        sum := sum - row[m] * l[j][m];
      }
      ghost var before := row;
      row := row[j := sum / l[j][j]];
      SetEntry(before, row, l[j], j, n);
      assert sum / l[j][j] * l[j][j] == sum;
      forall m | 0 <= m < j
        ensures Dot(row, l[m]) == k[m]
      {
        SameProduct(before, row, l[m], n);
      }
    }
    var sum := k[i];
    for m := 0 to i
      invariant sum == k[i] - DotTo(row, row, m)
    {
      sum := sum - row[m] * row[m];
    }
    pivot := sum;
    DotZero(row, row, i, n);
    if sum <= 0.0 {
      return false, row, sum;
    }
    ghost var before := row;
    row := row[i := sqrt(sum)];
    SetDiagonal(before, row, i, n);
    SquareSign(row[i], sum);
    forall m | 0 <= m < i
      ensures Dot(row, l[m]) == k[m]
    {
      SameProduct(before, row, l[m], n);
    }
    ok := true;
  }

  lemma {:induction false} SameProductTo(u: Vector, v: Vector, w: Vector, n: nat)
    requires n <= |u| && n <= |v| && n <= |w|
    requires forall j :: 0 <= j < n ==> u[j] == v[j] || w[j] == 0.0
    ensures DotTo(u, w, n) == DotTo(v, w, n)
  {
    if n > 0 {
      SameProductTo(u, v, w, n - 1);
      assert u[n - 1] * w[n - 1] == v[n - 1] * w[n - 1];
    }
  }

  lemma {:induction false} SamePrefix(u: Vector, v: Vector, n: nat)
    requires n <= |u| && n <= |v| && forall j :: 0 <= j < n ==> u[j] == v[j]
    ensures DotTo(u, u, n) == DotTo(v, v, n)
  {
    if n > 0 {
      SamePrefix(u, v, n - 1);
    }
  }

  lemma SameProduct(u: Vector, v: Vector, w: Vector, n: nat)
    requires |u| == |v| == |w| == n
    requires forall j :: 0 <= j < n ==> u[j] == v[j] || w[j] == 0.0
    ensures Dot(u, w) == Dot(v, w)
  {
    SameProductTo(u, v, w, n);
  }

  lemma SetEntry(before: Vector, after: Vector, w: Vector, j: nat, n: nat)
    requires |before| == |w| == |after| == n && j < n && forall m :: 0 <= m < j ==> after[m] == before[m]
    requires forall m :: j < m < n ==> w[m] == 0.0
    ensures Dot(after, w) == DotTo(before, w, j) + after[j] * w[j]
  {
    DotZero(after, w, j + 1, n);
    assert DotTo(after, w, j + 1) == DotTo(after, w, j) + after[j] * w[j];
    SameProductTo(after, before, w, j);
  }

  lemma SetDiagonal(before: Vector, after: Vector, i: nat, n: nat)
    requires |before| == |after| == n && i < n && forall m :: 0 <= m < i ==> after[m] == before[m]
    requires forall m :: i < m < n ==> after[m] == 0.0
    ensures Dot(after, after) == DotTo(before, before, i) + after[i] * after[i]
  {
    DotZero(after, after, i + 1, n);
    assert DotTo(after, after, i + 1) == DotTo(after, after, i) + after[i] * after[i];
    SamePrefix(after, before, i);
  }

  /** Rows below m agree with K as far as they have been computed. */
  ghost predicate FactorsUpTo(l: Matrix, k: Matrix, m: nat, n: nat)
    requires Square(l, n) && Square(k, n) && m <= n
  {
    forall i, j :: 0 <= j <= i < m ==> Dot(l[i], l[j]) == k[i][j]
  }

  /** Succeeds exactly on positive definite matrices, and then L is lower triangular with positive diagonal and L L^T = K. */
  method CholeskyDecompose(k: Matrix, n: nat, sqrt: real -> real) returns (ok: bool, l: Matrix)
    requires IsSquareRoot(sqrt) && Square(k, n) && Symmetric(k, n)
    ensures ok ==> IsFactor(l, k, n)
    ensures ok <==> PositiveDefinite(k, n)
  {
    l := seq(n, _ => seq(n, _ => 0.0));
    for i := 0 to n
      invariant Square(l, n) && Triangular(l, i, n) && FactorsUpTo(l, k, i, n)
    {
      var rowOk, row, pivot := CholeskyRow(k[i], l, i, n, sqrt);
      if !rowOk {
        PivotWitness(k, l, i, n, row, pivot);
        return false, l;
      }
      ghost var before := l;
      l := l[i := row];
      forall a, b | 0 <= b <= a < i + 1
        ensures Dot(l[a], l[b]) == k[a][b]
      {
        if a < i {
          assert l[a] == before[a] && l[b] == before[b];
        }
      }
    }
    forall i, j | 0 <= i < n && 0 <= j < n
      ensures Dot(l[i], l[j]) == k[i][j]
    {
      DotToSymmetric(l[i], l[j], n);
    }
    FactorIsPositiveDefinite(l, k, n);
    ok := true;
  }

  // ---- Success means positive definite ----

  lemma {:induction false} CombineZeroMeansZero(l: Matrix, x: Vector, m: nat, n: nat)
    requires Triangular(l, m, n) && m <= |x| && m <= n
    requires forall j :: 0 <= j < m ==> Combine(l, x, m, n)[j] == 0.0
    ensures forall j :: 0 <= j < m ==> x[j] == 0.0
  {
    if m > 0 {
      var rest, last := Combine(l, x, m - 1, n), l[m - 1];
      CombineEndsInZeros(l, x, m - 1, n);
      assert Combine(l, x, m, n)[m - 1] == rest[m - 1] + x[m - 1] * last[m - 1];
      ZeroFactor(x[m - 1], last[m - 1]);
      forall j | 0 <= j < m - 1
        ensures rest[j] == 0.0
      {
        assert Combine(l, x, m, n)[j] == rest[j] + x[m - 1] * last[j];
      }
      CombineZeroMeansZero(l, x, m - 1, n);
    }
  }

  lemma ZeroFactor(a: real, b: real)
    requires a * b == 0.0 && b > 0.0
    ensures a == 0.0
  {
    var p := a * b;
    if a > 0.0 {
      PositiveProduct(a, b, p);
    } else if a < 0.0 {
      PositiveProduct(-a, b, -p);
    }
  }

  lemma {:induction false} CombineEndsInZeros(l: Matrix, x: Vector, m: nat, n: nat)
    requires Triangular(l, m, n) && m <= |x| && m <= n
    ensures forall j :: m <= j < n ==> Combine(l, x, m, n)[j] == 0.0
  {
    if m > 0 {
      CombineEndsInZeros(l, x, m - 1, n);
      forall j | m <= j < n
        ensures Combine(l, x, m, n)[j] == 0.0
      {
        assert l[m - 1][j] == 0.0;
        assert Combine(l, x, m, n)[j] == Combine(l, x, m - 1, n)[j] + x[m - 1] * l[m - 1][j];
      }
    }
  }

  lemma FactorIsPositiveDefinite(l: Matrix, k: Matrix, n: nat)
    requires Square(k, n) && IsFactor(l, k, n)
    ensures PositiveDefinite(k, n)
  {
    forall x | |x| == n && x != Zeros(n)
      ensures Quadratic(k, x, n) > 0.0
    {
      var c := Combine(l, x, n, n);
      var j :| 0 <= j < n && x[j] != Zeros(n)[j];
      QuadraticIsSquare(l, k, x, n);
      SquaresNonNegative(c, n);
      if Dot(c, c) == 0.0 {
        CombineZeroMeansZero(l, x, n, n);
      }
    }
  }

  // ---- Failure exhibits a direction in which the form is not positive ----

  lemma {:induction false} CombineSame(l: Matrix, l': Matrix, x: Vector, x': Vector, m: nat, n: nat)
    requires m <= |l| && m <= |l'| && m <= |x| && m <= |x'| && forall i :: 0 <= i < m ==> |l[i]| == n && l[i] == l'[i] && x[i] == x'[i]
    ensures Combine(l, x, m, n) == Combine(l', x', m, n)
  {
    if m > 0 {
      CombineSame(l, l', x, x', m - 1, n);
    }
  }

  lemma {:induction false} CombineNegated(l: Matrix, x: Vector, y: Vector, m: nat, n: nat)
    requires m <= |l| && m <= |x| && m <= |y| && forall i :: 0 <= i < m ==> |l[i]| == n && y[i] == -x[i]
    ensures forall j :: 0 <= j < n ==> Combine(l, y, m, n)[j] == -Combine(l, x, m, n)[j]
  {
    if m > 0 {
      CombineNegated(l, x, y, m - 1, n);
      forall j | 0 <= j < n
        ensures Combine(l, y, m, n)[j] == -Combine(l, x, m, n)[j]
      {
        assert Combine(l, y, m, n)[j] == Combine(l, y, m - 1, n)[j] + y[m - 1] * l[m - 1][j];
        assert Combine(l, x, m, n)[j] == Combine(l, x, m - 1, n)[j] + x[m - 1] * l[m - 1][j];
        assert y[m - 1] * l[m - 1][j] == -(x[m - 1] * l[m - 1][j]);
      }
    }
  }

  /** Backward substitution exists: any target supported below m is a combination of the first m rows. */
  lemma {:induction false} SolveCombination(l: Matrix, y: Vector, m: nat, n: nat) returns (w: Vector)
    requires Triangular(l, m, n) && |y| == n && m <= n && forall j :: m <= j < n ==> y[j] == 0.0
    ensures |w| == n && (forall j :: m <= j < n ==> w[j] == 0.0) && Combine(l, w, m, n) == y
    decreases m
  {
    if m == 0 {
      w := Zeros(n);
    } else {
      var last := l[m - 1];
      var c := y[m - 1] / last[m - 1];
      QuotientTimes(y[m - 1], last[m - 1]);
      var less := Axpy(y, -c, last);
      forall j | m - 1 <= j < n
        ensures less[j] == 0.0
      {
        if j == m - 1 {
          assert (-c) * last[j] == -(c * last[j]);
        } else {
          assert last[j] == 0.0;
        }
      }
      var v := SolveCombination(l, less, m - 1, n);
      w := v[m - 1 := c];
      CombineSame(l, l, w, v, m - 1, n);
      forall j | 0 <= j < n
        ensures Combine(l, w, m, n)[j] == y[j]
      {
        assert Combine(l, w, m, n)[j] == less[j] + c * last[j];
        assert (-c) * last[j] == -(c * last[j]);
      }
    }
  }

  /** The direction (-w, 1, 0, ...) with L^T w = row makes the quadratic form equal to the failing pivot. */
  lemma PivotWitness(k: Matrix, l: Matrix, i: nat, n: nat, row: Vector, pivot: real)
    requires Square(k, n) && Symmetric(k, n) && Square(l, n) && i < n && Triangular(l, i, n) && FactorsUpTo(l, k, i, n)
    requires |row| == n && (forall j :: i <= j < n ==> row[j] == 0.0) && forall j :: 0 <= j < i ==> Dot(row, l[j]) == k[i][j]
    requires Dot(row, row) + pivot == k[i][i] && pivot <= 0.0
    ensures !PositiveDefinite(k, n)
  {
    var w := SolveCombination(l, row, i, n);
    var x := seq(n, j requires 0 <= j < n => if j == i then 1.0 else -w[j]);
    var m := l[i := row];
    CombineVanishes(l, m, w, x, i, n, row);
    forall a | 0 <= a <= i
      ensures Dot(k[a], x) == if a == i then pivot else 0.0
    {
      RowTimesWitness(k, l, m, x, i, n, row, pivot, a);
    }
    var kx := Times(k, x, n);
    assert forall j :: i < j < n ==> x[j] == 0.0;
    DotZero(kx, x, i + 1, n);
    DotZero(kx, x, 0, i);
    assert DotTo(kx, x, i + 1) == DotTo(kx, x, i) + kx[i] * x[i];
    assert x[i] == 1.0 && x != Zeros(n);
    assert Quadratic(k, x, n) == pivot;
  }

  lemma CombineVanishes(l: Matrix, m: Matrix, w: Vector, x: Vector, i: nat, n: nat, row: Vector)
    requires Square(l, n) && Square(m, n) && i < n && m == l[i := row] && |w| == |x| == |row| == n
    requires x[i] == 1.0 && (forall j :: 0 <= j < n && j != i ==> x[j] == -w[j]) && Combine(l, w, i, n) == row
    ensures Combine(m, x, i + 1, n) == Zeros(n)
  {
    CombineSame(m, l, x, x, i, n);
    CombineNegated(l, w, x, i, n);
    var c := Combine(m, x, i + 1, n);
    forall j | 0 <= j < n
      ensures c[j] == 0.0
    {
      assert c[j] == Combine(m, x, i, n)[j] + x[i] * row[j];
    }
  }

  lemma RowTimesWitness(k: Matrix, l: Matrix, m: Matrix, x: Vector, i: nat, n: nat, row: Vector, pivot: real, a: nat)
    requires Square(k, n) && Symmetric(k, n) && Square(l, n) && i < n && FactorsUpTo(l, k, i, n)
    requires |row| == n && m == l[i := row] && (forall j :: 0 <= j < i ==> Dot(row, l[j]) == k[i][j])
    requires Dot(row, row) + pivot == k[i][i]
    requires |x| == n && x[i] == 1.0 && (forall j :: i < j < n ==> x[j] == 0.0) && Combine(m, x, i + 1, n) == Zeros(n)
    requires a <= i
    ensures Dot(k[a], x) == if a == i then pivot else 0.0
  {
    var ka := k[a][i := Dot(m[a], m[i])];
    forall b | 0 <= b < i + 1
      ensures Dot(m[a], m[b]) == ka[b]
    {
      DotToSymmetric(m[a], m[b], n);
    }
    DotOfCombine(m, m[a], ka, x, i + 1, n);
    DotZero(m[a], Zeros(n), 0, n);
    DotZero(k[a], x, i + 1, n);
    assert DotTo(k[a], x, i + 1) == DotTo(k[a], x, i) + k[a][i] * x[i];
    assert DotTo(ka, x, i + 1) == DotTo(ka, x, i) + ka[i] * x[i];
    SameProductTo(k[a], ka, x, i);
    if a < i {
      DotToSymmetric(l[a], row, n);
    }
  }

  // ---- The triangular solves ----

  /** Sum of l[j][col] * x[j] for lo <= j < hi. */
  ghost function ColumnSum(l: Matrix, x: Vector, col: nat, lo: nat, hi: nat): real
    requires lo <= hi <= |l| && hi <= |x| && forall j :: lo <= j < hi ==> col < |l[j]|
  {
    if lo == hi then 0.0 else ColumnSum(l, x, col, lo, hi - 1) + l[hi - 1][col] * x[hi - 1]
  }

  lemma {:induction false} ColumnSumSame(l: Matrix, x: Vector, y: Vector, col: nat, lo: nat, hi: nat)
    requires lo <= hi <= |l| && hi <= |x| && hi <= |y| && forall j :: lo <= j < hi ==> col < |l[j]| && x[j] == y[j]
    ensures ColumnSum(l, x, col, lo, hi) == ColumnSum(l, y, col, lo, hi)
  {
    if lo < hi {
      ColumnSumSame(l, x, y, col, lo, hi - 1);
    }
  }

  lemma {:induction false} ColumnSumSkipsZeros(l: Matrix, x: Vector, col: nat, m: nat, n: nat)
    requires Triangular(l, n, n) && n <= |x| && col < n && col <= m <= n
    ensures ColumnSum(l, x, col, 0, m) == ColumnSum(l, x, col, col, m)
  {
    if m > col {
      ColumnSumSkipsZeros(l, x, col, m - 1, n);
    } else if m > 0 {
      ColumnAboveDiagonal(l, x, col, m, n);
    }
  }

  lemma {:induction false} ColumnAboveDiagonal(l: Matrix, x: Vector, col: nat, m: nat, n: nat)
    requires Triangular(l, n, n) && n <= |x| && col < n && m <= col
    ensures ColumnSum(l, x, col, 0, m) == 0.0
  {
    if m > 0 {
      ColumnAboveDiagonal(l, x, col, m - 1, n);
      assert l[m - 1][col] == 0.0;
    }
  }

  lemma {:induction false} CombineIsColumnSum(l: Matrix, x: Vector, m: nat, n: nat, col: nat)
    requires m <= |l| && m <= |x| && col < n && forall i :: 0 <= i < m ==> |l[i]| == n
    ensures Combine(l, x, m, n)[col] == ColumnSum(l, x, col, 0, m)
  {
    if m > 0 {
      CombineIsColumnSum(l, x, m - 1, n, col);
      assert Combine(l, x, m, n)[col] == Combine(l, x, m - 1, n)[col] + x[m - 1] * l[m - 1][col];
    }
  }

  /** L * y = b, row by row. */
  ghost predicate SolvesForward(l: Matrix, y: Vector, b: Vector, m: nat, n: nat)
    requires Triangular(l, m, n) && m <= n && |y| == n && m <= |b|
  {
    forall i :: 0 <= i < m ==> DotTo(y, l[i], i + 1) == b[i]
  }

  /** L^T * x = y, from row m on. */
  ghost predicate SolvesBackward(l: Matrix, x: Vector, y: Vector, m: nat, n: nat)
    requires Triangular(l, n, n) && |l| == n && |x| == |y| == n
  {
    forall i :: m <= i < n ==> ColumnSum(l, x, i, i, n) == y[i]
  }

  lemma {:induction false} ColumnSumFirst(l: Matrix, x: Vector, col: nat, lo: nat, hi: nat)
    requires lo < hi <= |l| && hi <= |x| && forall j :: lo <= j < hi ==> col < |l[j]|
    ensures ColumnSum(l, x, col, lo, hi) == l[lo][col] * x[lo] + ColumnSum(l, x, col, lo + 1, hi)
  {
    if lo + 1 < hi {
      ColumnSumFirst(l, x, col, lo, hi - 1);
    } else {
      assert ColumnSum(l, x, col, lo, lo) == 0.0;
    }
  }

  method ForwardEntry(l: Matrix, x: array<real>, b: Vector, i: nat, n: nat)
    requires Square(l, n) && Triangular(l, n, n) && x.Length == n && i < n && |b| == n
    requires SolvesForward(l, x[..], b, i, n)
    modifies x
    ensures SolvesForward(l, x[..], b, i + 1, n)
  {
    ghost var before := x[..];
    var sum := b[i];
    for j := 0 to i
      invariant x[..] == before && sum == b[i] - DotTo(x[..], l[i], j)
    {
      sum := sum - l[i][j] * x[j];
    }
    x[i] := sum / l[i][i];
    forall m | 0 <= m < i
      ensures DotTo(x[..], l[m], m + 1) == b[m]
    {
      SameProductTo(x[..], before, l[m], m + 1);
    }
    SameProductTo(x[..], before, l[i], i);
    QuotientTimes(sum, l[i][i]);
  }

  method BackwardEntry(l: Matrix, x: array<real>, ghost y: Vector, i: nat, n: nat)
    requires Square(l, n) && Triangular(l, n, n) && x.Length == |y| == n && i < n
    requires SolvesBackward(l, x[..], y, i + 1, n) && forall m :: 0 <= m <= i ==> x[m] == y[m]
    modifies x
    ensures SolvesBackward(l, x[..], y, i, n) && forall m :: 0 <= m < i ==> x[m] == y[m]
  {
    ghost var before := x[..];
    var sum := x[i];
    for j := i + 1 to n
      invariant x[..] == before && sum == y[i] - ColumnSum(l, before, i, i + 1, j)
    {
      sum := sum - l[j][i] * x[j];
    }
    x[i] := sum / l[i][i];
    QuotientTimes(sum, l[i][i]);
    BackwardStep(l, before, x[..], y, i, n, sum);
  }

  /** A fitting entry i solves one more row and leaves the solved ones alone. */
  lemma BackwardStep(l: Matrix, before: Vector, after: Vector, y: Vector, i: nat, n: nat, product: real)
    requires Square(l, n) && Triangular(l, n, n) && |before| == |after| == |y| == n && i < n
    requires SolvesBackward(l, before, y, i + 1, n) && forall j :: i < j < n ==> after[j] == before[j]
    requires product == l[i][i] * after[i] && product + ColumnSum(l, before, i, i + 1, n) == y[i]
    ensures SolvesBackward(l, after, y, i, n)
  {
    forall m | i + 1 <= m < n
      ensures ColumnSum(l, after, m, m, n) == y[m]
    {
      ColumnSumSame(l, after, before, m, m, n);
    }
    ColumnSumSame(l, after, before, i, i + 1, n);
    ColumnSumFirst(l, after, i, i, n);
  }

  /** Both substitutions in one buffer: the result satisfies L * (L^T * x) = b. */
  method SolveCholesky(l: Matrix, b: Vector, n: nat) returns (result: Vector)
    requires Square(l, n) && Triangular(l, n, n) && |b| == n
    ensures |result| == n && forall i :: 0 <= i < n ==> Dot(l[i], Combine(l, result, n, n)) == b[i]
  {
    var x := new real[n](_ => 0.0);
    for i := 0 to n
      invariant SolvesForward(l, x[..], b, i, n)
    {
      ForwardEntry(l, x, b, i, n);
    }
    ghost var y := x[..];
    for i := n downto 0
      invariant SolvesBackward(l, x[..], y, i, n) && forall m :: 0 <= m < i ==> x[m] == y[m]
    {
      BackwardEntry(l, x, y, i, n);
    }
    result := x[..];
    BothSolves(l, result, y, b, n);
  }

  lemma BothSolves(l: Matrix, x: Vector, y: Vector, b: Vector, n: nat)
    requires Square(l, n) && Triangular(l, n, n) && |x| == |y| == |b| == n
    requires SolvesForward(l, y, b, n, n) && SolvesBackward(l, x, y, 0, n)
    ensures forall i :: 0 <= i < n ==> Dot(l[i], Combine(l, x, n, n)) == b[i]
  {
    var c := Combine(l, x, n, n);
    forall col | 0 <= col < n
      ensures c[col] == y[col]
    {
      CombineIsColumnSum(l, x, n, n, col);
      ColumnSumSkipsZeros(l, x, col, n, n);
    }
    assert c == y;
    forall i | 0 <= i < n
      ensures Dot(l[i], c) == b[i]
    {
      DotToSymmetric(l[i], y, n);
      DotZero(y, l[i], i + 1, n);
    }
  }

  /** With the factor of K, the solves return the solution of K * x = b. */
  lemma SolutionOfFactor(l: Matrix, k: Matrix, x: Vector, b: Vector, n: nat)
    requires Square(k, n) && IsFactor(l, k, n) && |x| == |b| == n
    requires forall i :: 0 <= i < n ==> Dot(l[i], Combine(l, x, n, n)) == b[i]
    ensures Times(k, x, n) == b
  {
    forall i | 0 <= i < n
      ensures Times(k, x, n)[i] == b[i]
    {
      DotOfCombine(l, l[i], k[i], x, n, n);
    }
  }

  /** The solution is unique: the solves invert multiplication by K. */
  lemma SolutionIsUnique(l: Matrix, k: Matrix, x: Vector, x': Vector, n: nat)
    requires Square(k, n) && IsFactor(l, k, n) && |x| == |x'| == n
    requires Times(k, x, n) == Times(k, x', n)
    ensures x == x'
  {
    var d := Minus(x, x');
    FactorIsPositiveDefinite(l, k, n);
    forall i | 0 <= i < n
      ensures Times(k, d, n)[i] == 0.0
    {
      assert Dot(k[i], x) == Dot(k[i], x') by {
        assert Times(k, x, n)[i] == Times(k, x', n)[i];
      }
      assert d == Axpy(x, -1.0, x');
      DotToSymmetric(k[i], d, n);
      DotToAxpy(x, -1.0, x', k[i], n);
      DotToSymmetric(x, k[i], n);
      DotToSymmetric(x', k[i], n);
    }
    DotZero(Times(k, d, n), d, 0, n);
    assert Quadratic(k, d, n) == 0.0;
    assert d == Zeros(n);
    forall j | 0 <= j < n
      ensures x[j] == x'[j]
    {
      assert d[j] == 0.0;
    }
  }
}
