/** Row-major pixel grids and 4-connectivity of their foreground. */
module PixelGrid {
  import opened Digraph

  /** Pixel i of a grid of width w lies in column i % w of row i / w. */
  function Column(w: nat, i: nat): nat
    requires w > 0
  {
    i % w
  }

  function Row(w: nat, i: nat): nat
    requires w > 0
  {
    i / w
  }

  ghost predicate Next(a: nat, b: nat) {
    a == b + 1 || b == a + 1
  }

  /** Direct horizontal or vertical neighbours. */
  ghost predicate Adjacent(w: nat, a: nat, b: nat)
    requires w > 0
  {
    || (Row(w, a) == Row(w, b) && Next(Column(w, a), Column(w, b)))
    || (Column(w, a) == Column(w, b) && Next(Row(w, a), Row(w, b)))
  }

  lemma IndexOf(w: nat, y: nat, x: nat)
    requires x < w
    ensures y * w + x >= 0 && Row(w, y * w + x) == y && Column(w, y * w + x) == x
  {
    var i := y * w + x;
    assert i == Row(w, i) * w + Column(w, i);
    SameQuotient(w, y, x, Row(w, i), Column(w, i));
  }

  lemma SameQuotient(w: nat, y: nat, x: nat, y': nat, x': nat)
    requires x < w && x' < w && y * w + x == y' * w + x'
    ensures y == y' && x == x'
  {
    if y < y' {
      MultipleGap(w, y, y');
    } else if y' < y {
      MultipleGap(w, y', y);
    }
  }

  lemma MultipleGap(w: nat, a: nat, b: nat)
    requires a < b
    ensures a * w + w <= b * w
  {
    assert (b - a - 1) * w >= 0;
    assert b * w == a * w + w + (b - a - 1) * w;
  }

  /** Rows end where the next one starts, within the image. */
  lemma RowFits(h: nat, w: nat, y: nat)
    requires y < h
    ensures y * w + w <= h * w && (y + 1) * w == y * w + w
  {
    MultipleGap(w, y, h);
  }

  lemma IndexInGrid(h: nat, w: nat, i: nat)
    requires i < h * w
    ensures w > 0 && Row(w, i) < h && Column(w, i) < w
  {
    assert w > 0;
    var y := Row(w, i);
    assert i == y * w + Column(w, i);
    assert y >= h ==> y * w >= h * w;
  }

  /** The neighbours that precede a pixel in raster order are the one above and the one to its left. */
  lemma EarlierNeighbours(w: nat, a: nat, b: nat)
    requires w > 0 && a < b
    ensures Adjacent(w, a, b) <==> b == a + w || (b == a + 1 && Column(w, b) > 0)
  {
    var ya, xa, yb, xb := Row(w, a), Column(w, a), Row(w, b), Column(w, b);
    assert a == ya * w + xa && b == yb * w + xb;
    if Adjacent(w, a, b) {
      if ya == yb {
        assert b == a + 1;
      } else {
        if yb + 1 == ya {
          MultipleGap(w, yb, ya);
        }
        assert yb == ya + 1;
        assert yb * w == ya * w + w;
      }
    } else if b == a + w {
      assert b == (ya + 1) * w + xa;
      SameQuotient(w, yb, xb, ya + 1, xa);
    } else if b == a + 1 && xb > 0 {
      assert a == yb * w + (xb - 1);
      SameQuotient(w, ya, xa, yb, xb - 1);
    }
  }

  lemma AdjacentSymmetric(w: nat, a: nat, b: nat)
    requires w > 0
    ensures Adjacent(w, a, b) <==> Adjacent(w, b, a)
  {
  }

  // ---- Connectivity of the first n foreground pixels ----

  ghost predicate Foreground(binary: seq<real>, i: int) {
    0 <= i < |binary| && binary[i] > 0.0
  }

  ghost function Links(binary: seq<real>, w: nat, n: nat): (e: set<(nat, nat)>)
    requires w > 0
    ensures SymmetricEdges(e)
  {
    set a: nat, b: nat | 0 <= a < n && 0 <= b < n && Foreground(binary, a) && Foreground(binary, b) && Adjacent(w, a, b) :: (a, b)
  }

  /** Two foreground pixels among the first n are joined by a 4-connected foreground path among them. */
  ghost predicate Connected(binary: seq<real>, w: nat, n: nat, a: nat, b: nat)
    requires w > 0
  {
    Reaches(Links(binary, w, n), a, b)
  }

  lemma MorePixelsConnectMore(binary: seq<real>, w: nat, n: nat, a: nat, b: nat)
    requires w > 0 && Connected(binary, w, n, a, b)
    ensures Connected(binary, w, n + 1, a, b)
  {
    FewerEdges(Links(binary, w, n), Links(binary, w, n + 1), a, b);
  }

  /** A labelling of the first n pixels that is right: neighbours agree, and agreeing pixels are connected. */
  ghost predicate Separates(binary: seq<real>, w: nat, n: nat, roots: seq<int>)
    requires w > 0
  {
    && n <= |binary| == |roots|
    && (forall a: nat, b: nat :: a < n && b < n && Foreground(binary, a) && Foreground(binary, b) && Adjacent(w, a, b) ==> roots[a] == roots[b])
    && (forall a: nat, b: nat :: a < n && b < n && Foreground(binary, a) && Foreground(binary, b) && roots[a] == roots[b] ==>
          Connected(binary, w, n, a, b))
  }

  /** Whether pixel x carries the label of one of the earlier neighbours of pixel n. */
  ghost predicate Touched(binary: seq<real>, w: nat, n: nat, roots: seq<int>, x: nat)
    requires w > 0 && n < |binary| == |roots| && x < n
  {
    exists m: nat :: m < n && Foreground(binary, m) && Adjacent(w, m, n) && roots[m] == roots[x]
  }

  /** The labels of pixel n and of everything touching it have been merged, and nothing else. */
  ghost predicate Merges(binary: seq<real>, w: nat, n: nat, before: seq<int>, after: seq<int>)
    requires w > 0 && n < |binary| == |before| == |after|
  {
    && (forall x: nat, y: nat :: x < n && y < n && Foreground(binary, x) && Foreground(binary, y) ==>
          (after[x] == after[y] <==>
           before[x] == before[y] || (Touched(binary, w, n, before, x) && Touched(binary, w, n, before, y))))
    && (forall x: nat :: x < n && Foreground(binary, x) ==> (after[x] == after[n] <==> Touched(binary, w, n, before, x)))
  }

  lemma TouchedIsConnected(binary: seq<real>, w: nat, n: nat, roots: seq<int>, x: nat)
    requires w > 0 && Separates(binary, w, n, roots) && Foreground(binary, n) && x < n && Foreground(binary, x)
    requires Touched(binary, w, n, roots, x)
    ensures Connected(binary, w, n + 1, x, n) && Connected(binary, w, n + 1, n, x)
  {
    var m: nat :| m < n && Foreground(binary, m) && Adjacent(w, m, n) && roots[m] == roots[x];
    assert Connected(binary, w, n, x, m);
    MorePixelsConnectMore(binary, w, n, x, m);
    assert (m, n) in Links(binary, w, n + 1);
    ReachesStep(Links(binary, w, n + 1), x, m, n);
    ReachesSymmetric(Links(binary, w, n + 1), x, n);
  }

  lemma MergedAreConnected(binary: seq<real>, w: nat, n: nat, before: seq<int>, after: seq<int>, a: nat, b: nat)
    requires w > 0 && Separates(binary, w, n, before) && Foreground(binary, n) && |after| == |before| && Merges(binary, w, n, before, after)
    requires a <= n && b <= n && Foreground(binary, a) && Foreground(binary, b) && after[a] == after[b]
    ensures Connected(binary, w, n + 1, a, b)
  {
    var e := Links(binary, w, n + 1);
    if a == n && b == n {
      ReachesSelf(e, n);
    } else if a == n {
      TouchedIsConnected(binary, w, n, before, b);
    } else if b == n {
      TouchedIsConnected(binary, w, n, before, a);
    } else if before[a] == before[b] {
      MorePixelsConnectMore(binary, w, n, a, b);
    } else {
      TouchedIsConnected(binary, w, n, before, a);
      TouchedIsConnected(binary, w, n, before, b);
      ReachesTrans(e, a, n, b);
    }
  }

  /** Merging the neighbours' labels into a new foreground pixel keeps the labelling right. */
  lemma MergeKeepsSeparation(binary: seq<real>, w: nat, n: nat, before: seq<int>, after: seq<int>)
    requires w > 0 && Separates(binary, w, n, before) && Foreground(binary, n) && |after| == |before|
    requires Merges(binary, w, n, before, after)
    ensures Separates(binary, w, n + 1, after)
  {
    forall a: nat, b: nat | a < n + 1 && b < n + 1 && Foreground(binary, a) && Foreground(binary, b) && Adjacent(w, a, b)
      ensures after[a] == after[b]
    {
      AdjacentSymmetric(w, a, b);
      if a < n && b == n {
        assert Touched(binary, w, n, before, a);
      } else if b < n && a == n {
        assert Touched(binary, w, n, before, b);
      }
    }
    forall a: nat, b: nat | a < n + 1 && b < n + 1 && Foreground(binary, a) && Foreground(binary, b) && after[a] == after[b]
      ensures Connected(binary, w, n + 1, a, b)
    {
      MergedAreConnected(binary, w, n, before, after, a, b);
    }
  }

  lemma BackgroundKeepsSeparation(binary: seq<real>, w: nat, n: nat, roots: seq<int>)
    requires w > 0 && Separates(binary, w, n, roots) && n < |binary| && !Foreground(binary, n)
    ensures Separates(binary, w, n + 1, roots)
  {
    assert Links(binary, w, n + 1) == Links(binary, w, n);
  }

  lemma {:induction false} LabelAlongPath(binary: seq<real>, w: nat, n: nat, roots: seq<int>, p: seq<nat>, k: nat)
    requires w > 0 && Separates(binary, w, n, roots) && IsPath(Links(binary, w, n), p) && k < |p| && p[0] < n
    ensures p[k] < n && roots[p[k]] == roots[p[0]]
  {
    if k > 0 {
      LabelAlongPath(binary, w, n, roots, p, k - 1);
      assert (p[k - 1], p[k - 1 + 1]) in Links(binary, w, n);
    }
  }

  /** Two foreground pixels have the same label if and only if they are connected. */
  lemma SameLabelMeansConnected(binary: seq<real>, w: nat, n: nat, roots: seq<int>, a: nat, b: nat)
    requires w > 0 && Separates(binary, w, n, roots) && a < n && b < n && Foreground(binary, a) && Foreground(binary, b)
    ensures roots[a] == roots[b] <==> Connected(binary, w, n, a, b)
  {
    if Connected(binary, w, n, a, b) {
      var p :| Joins(Links(binary, w, n), p, a, b);
      LabelAlongPath(binary, w, n, roots, p, |p| - 1);
    }
  }
}
