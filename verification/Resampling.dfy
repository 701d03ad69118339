/** Bilinear upsampling and separable Gaussian smoothing of score maps (src/detection/post_process_utils.cpp).
    Images are row-major sequences; single-precision rounding is not modelled. */
module Resampling {
  import opened PixelGrid
  import Vectors

  ghost predicate Within(values: seq<real>, lo: real, hi: real) {
    forall i :: 0 <= i < |values| ==> lo <= values[i] <= hi
  }

  function At(image: seq<real>, h: nat, w: nat, y: nat, x: nat): (v: real)
    requires |image| == h * w && y < h && x < w
    ensures y * w + x < |image| && v == image[y * w + x]
  {
    RowFits(h, w, y);
    image[y * w + x]
  }

  // ---- Bilinear upsampling ----

  /** The centre of line t, times the number of source lines. */
  function ScaledCentre(t: nat, source: nat): real {
    (t as real + 0.5) * source as real
  }

  /** The source coordinate of target line t, clamped to the source lines. */
  function SourceCoordinate(t: nat, source: nat, target: nat): (c: real)
    requires source > 0 && target > 0
    ensures 0.0 <= c <= (source - 1) as real
  {
    var raw := Vectors.Ratio(ScaledCentre(t, source), target as real) - 0.5;
    var low := if raw < source as real - 1.0 then raw else source as real - 1.0;
    if low < 0.0 then 0.0 else low
  }

  /** The source line at or below a coordinate. */
  function LineBelow(c: real, source: nat): (line: nat)
    requires 0.0 <= c <= (source - 1) as real
    ensures line < source && line as real <= c < line as real + 1.0
  {
    c.Floor
  }

  function LineAbove(c: real, source: nat): nat
    requires 0.0 <= c <= (source - 1) as real
  {
    if LineBelow(c, source) + 1 < source - 1 then LineBelow(c, source) + 1 else source - 1
  }

  function Mix(a: real, b: real, t: real): real {
    a * (1.0 - t) + b * t
  }

  /** The interpolated value at a pair of source coordinates. */
  function Interpolate(image: seq<real>, h: nat, w: nat, cy: real, cx: real): real
    requires |image| == h * w && 0.0 <= cy <= (h - 1) as real && 0.0 <= cx <= (w - 1) as real
  {
    var y0, y1, wy := LineBelow(cy, h), LineAbove(cy, h), cy - LineBelow(cy, h) as real;
    var x0, x1, wx := LineBelow(cx, w), LineAbove(cx, w), cx - LineBelow(cx, w) as real;
    Mix(Mix(At(image, h, w, y0, x0), At(image, h, w, y0, x1), wx), Mix(At(image, h, w, y1, x0), At(image, h, w, y1, x1), wx), wy)
  }

  function UpsampledPixel(src: seq<real>, srcH: nat, srcW: nat, dstH: nat, dstW: nat, i: nat): real
    requires srcH > 0 && srcW > 0 && dstH > 0 && dstW > 0 && |src| == srcH * srcW
  {
    Interpolate(src, srcH, srcW, SourceCoordinate(Row(dstW, i), srcH, dstH), SourceCoordinate(Column(dstW, i), srcW, dstW))
  }

  function Upsampled(src: seq<real>, srcH: nat, srcW: nat, dstH: nat, dstW: nat): (dst: seq<real>)
    requires |src| == srcH * srcW
    ensures |dst| == if srcH == 0 || srcW == 0 then 0 else dstH * dstW
  {
    if srcH == 0 || srcW == 0 || dstH == 0 || dstW == 0 then []
    else seq(dstH * dstW, i requires 0 <= i < dstH * dstW => UpsampledPixel(src, srcH, srcW, dstH, dstW, i))
  }

  method UpsampleRow(src: seq<real>, srcH: nat, srcW: nat, dstH: nat, dstW: nat, y: nat, dst: array<real>)
    requires srcH > 0 && srcW > 0 && dstH > 0 && dstW > 0 && |src| == srcH * srcW && y * dstW + dstW <= dst.Length
    requires forall i :: 0 <= i < y * dstW ==> dst[i] == UpsampledPixel(src, srcH, srcW, dstH, dstW, i)
    modifies dst
    ensures forall i :: 0 <= i < y * dstW + dstW ==> dst[i] == UpsampledPixel(src, srcH, srcW, dstH, dstW, i)
  {
    var srcY := SourceCoordinate(y, srcH, dstH);
    var y0, y1 := LineBelow(srcY, srcH), LineAbove(srcY, srcH);
    var wy := srcY - y0 as real;
    for x: nat := 0 to dstW
      invariant forall i :: 0 <= i < y * dstW + x ==> dst[i] == UpsampledPixel(src, srcH, srcW, dstH, dstW, i)
    {
      var srcX := SourceCoordinate(x, srcW, dstW);
      var x0, x1 := LineBelow(srcX, srcW), LineAbove(srcX, srcW);
      var wx := srcX - x0 as real;
      var v0 := Mix(At(src, srcH, srcW, y0, x0), At(src, srcH, srcW, y0, x1), wx);
      var v1 := Mix(At(src, srcH, srcW, y1, x0), At(src, srcH, srcW, y1, x1), wx);
      IndexOf(dstW, y, x);
      dst[y * dstW + x] := Mix(v0, v1, wy);
    }
  }

  method BilinearUpsample(src: seq<real>, srcH: nat, srcW: nat, dstH: nat, dstW: nat) returns (dst: seq<real>)
    requires |src| == srcH * srcW
    ensures dst == Upsampled(src, srcH, srcW, dstH, dstW)
  {
    if srcH == 0 || srcW == 0 || dstH == 0 || dstW == 0 {
      return [];
    }
    var out := new real[dstH * dstW];
    for y: nat := 0 to dstH
      invariant forall i :: 0 <= i < y * dstW ==> i < out.Length && out[i] == UpsampledPixel(src, srcH, srcW, dstH, dstW, i)
    {
      RowFits(dstH, dstW, y);
      UpsampleRow(src, srcH, srcW, dstH, dstW, y, out);
    }
    dst := out[..];
  }

  lemma NonNegativeProduct(a: real, b: real)
    requires a >= 0.0 && b >= 0.0
    ensures a * b >= 0.0
  {
  }

  lemma MixBetween(a: real, b: real, t: real, lo: real, hi: real)
    requires 0.0 <= t <= 1.0 && lo <= a <= hi && lo <= b <= hi
    ensures lo <= Mix(a, b, t) <= hi
  {
    NonNegativeProduct(a - lo, 1.0 - t);
    NonNegativeProduct(b - lo, t);
    NonNegativeProduct(hi - a, 1.0 - t);
    NonNegativeProduct(hi - b, t);
  }

  lemma InterpolateBetween(image: seq<real>, h: nat, w: nat, cy: real, cx: real, lo: real, hi: real)
    requires |image| == h * w && 0.0 <= cy <= (h - 1) as real && 0.0 <= cx <= (w - 1) as real && Within(image, lo, hi)
    ensures lo <= Interpolate(image, h, w, cy, cx) <= hi
  {
    var y0, y1, wy := LineBelow(cy, h), LineAbove(cy, h), cy - LineBelow(cy, h) as real;
    var x0, x1, wx := LineBelow(cx, w), LineAbove(cx, w), cx - LineBelow(cx, w) as real;
    MixBetween(At(image, h, w, y0, x0), At(image, h, w, y0, x1), wx, lo, hi);
    MixBetween(At(image, h, w, y1, x0), At(image, h, w, y1, x1), wx, lo, hi);
    MixBetween(Mix(At(image, h, w, y0, x0), At(image, h, w, y0, x1), wx), Mix(At(image, h, w, y1, x0), At(image, h, w, y1, x1), wx), wy, lo, hi);
  }

  /** Upsampling stays within the range of the source. */
  lemma UpsampledWithin(src: seq<real>, srcH: nat, srcW: nat, dstH: nat, dstW: nat, lo: real, hi: real)
    requires |src| == srcH * srcW && Within(src, lo, hi)
    ensures Within(Upsampled(src, srcH, srcW, dstH, dstW), lo, hi)
  {
    var dst := Upsampled(src, srcH, srcW, dstH, dstW);
    forall i | 0 <= i < |dst|
      ensures lo <= dst[i] <= hi
    {
      InterpolateBetween(src, srcH, srcW, SourceCoordinate(Row(dstW, i), srcH, dstH), SourceCoordinate(Column(dstW, i), srcW, dstW), lo, hi);
    }
  }

  /** A surface that is linear along each axis. */
  function Surface(a: real, b: real, c: real, d: real, y: real, x: real): real {
    a + b * y + c * x + d * y * x
  }

  ghost predicate Samples(image: seq<real>, h: nat, w: nat, a: real, b: real, c: real, d: real)
    requires |image| == h * w
  {
    forall y: nat, x: nat :: y < h && x < w ==> At(image, h, w, y, x) == Surface(a, b, c, d, y as real, x as real)
  }

  lemma MixAlongX(a: real, b: real, c: real, d: real, y: real, x0: real, t: real)
    ensures Mix(Surface(a, b, c, d, y, x0), Surface(a, b, c, d, y, x0 + 1.0), t) == Surface(a, b, c, d, y, x0 + t)
  {
    var k := c + d * y;
    assert forall x :: Surface(a, b, c, d, y, x) == a + b * y + k * x;
  }

  lemma MixAlongY(a: real, b: real, c: real, d: real, y0: real, x: real, t: real)
    ensures Mix(Surface(a, b, c, d, y0, x), Surface(a, b, c, d, y0 + 1.0, x), t) == Surface(a, b, c, d, y0 + t, x)
  {
    var k := b + d * x;
    assert forall y :: Surface(a, b, c, d, y, x) == a + c * x + k * y;
  }

  lemma MixSame(v: real, t: real)
    ensures Mix(v, v, t) == v
  {
  }

  /** At a coordinate between two lines the upper line is the next one; on the last line the weight is zero. */
  lemma LineCases(c: real, source: nat)
    requires 0.0 <= c <= (source - 1) as real
    ensures LineAbove(c, source) == LineBelow(c, source) + 1 || (LineAbove(c, source) == LineBelow(c, source) && c == LineBelow(c, source) as real)
  {
  }

  lemma RowOfSurface(image: seq<real>, h: nat, w: nat, y: nat, cx: real, a: real, b: real, c: real, d: real)
    requires |image| == h * w && y < h && 0.0 <= cx <= (w - 1) as real && Samples(image, h, w, a, b, c, d)
    ensures Mix(At(image, h, w, y, LineBelow(cx, w)), At(image, h, w, y, LineAbove(cx, w)), cx - LineBelow(cx, w) as real)
         == Surface(a, b, c, d, y as real, cx)
  {
    var x0 := LineBelow(cx, w);
    var t := cx - x0 as real;
    LineCases(cx, w);
    MixAlongX(a, b, c, d, y as real, x0 as real, t);
    MixSame(At(image, h, w, y, x0), t);
  }

  /** Interpolation reproduces every such surface exactly, at every coordinate. */
  lemma InterpolationIsExact(image: seq<real>, h: nat, w: nat, cy: real, cx: real, a: real, b: real, c: real, d: real)
    requires |image| == h * w && 0.0 <= cy <= (h - 1) as real && 0.0 <= cx <= (w - 1) as real && Samples(image, h, w, a, b, c, d)
    ensures Interpolate(image, h, w, cy, cx) == Surface(a, b, c, d, cy, cx)
  {
    var y0, y1 := LineBelow(cy, h), LineAbove(cy, h);
    var t := cy - y0 as real;
    RowOfSurface(image, h, w, y0, cx, a, b, c, d);
    RowOfSurface(image, h, w, y1, cx, a, b, c, d);
    LineCases(cy, h);
    MixAlongY(a, b, c, d, y0 as real, cx, t);
    MixSame(Surface(a, b, c, d, y0 as real, cx), t);
  }

  /** Every source line has the coordinate of its own index when the sizes agree. */
  lemma SameSizeCoordinate(t: nat, size: nat)
    requires t < size
    ensures SourceCoordinate(t, size, size) == t as real
  {
    Vectors.RatioIs(ScaledCentre(t, size), size as real, t as real + 0.5);
  }

  lemma CentresOppose(t: nat, u: nat, source: nat, target: nat)
    requires t + u + 1 == target
    ensures ScaledCentre(t, source) + ScaledCentre(u, source) == source as real * target as real
  {
    assert (t as real + 0.5) + (u as real + 0.5) == target as real;
  }

  lemma CentresApart(t: nat, source: nat)
    ensures ScaledCentre(t + 1, source) == ScaledCentre(t, source) + source as real
  {
  }

  lemma RatiosAddTo(a: real, b: real, d: real, s: real)
    requires d > 0.0 && a + b == s * d
    ensures Vectors.Ratio(a, d) + Vectors.Ratio(b, d) == s
  {
    var p, q := Vectors.Ratio(a, d), Vectors.Ratio(b, d);
    Vectors.RatioTimes(a, d);
    Vectors.RatioTimes(b, d);
    assert (p + q) * d == p * d + q * d;
    Vectors.ScaleOrder(p + q, s, d);
  }

  lemma RatiosDiffer(a: real, b: real, d: real, s: real)
    requires d > 0.0 && b == a + s
    ensures (Vectors.Ratio(b, d) - Vectors.Ratio(a, d)) * d == s
  {
    var p, q := Vectors.Ratio(a, d), Vectors.Ratio(b, d);
    Vectors.RatioTimes(a, d);
    Vectors.RatioTimes(b, d);
    assert (q - p) * d == q * d - p * d;
  }

  /** Lines equally far from the two ends have coordinates equally far from them. */
  lemma CoordinatesReflect(t: nat, u: nat, source: nat, target: nat)
    requires source > 0 && t + u + 1 == target
    ensures SourceCoordinate(t, source, target) + SourceCoordinate(u, source, target) == (source - 1) as real
  {
    CentresOppose(t, u, source, target);
    RatiosAddTo(ScaledCentre(t, source), ScaledCentre(u, source), target as real, source as real);
  }

  /** Away from the ends, neighbouring target lines are source/target apart. */
  lemma CoordinatesAreSpaced(t: nat, source: nat, target: nat)
    requires source > 0 && t + 1 < target
    requires 0.0 < SourceCoordinate(t, source, target) && SourceCoordinate(t + 1, source, target) < (source - 1) as real
    ensures (SourceCoordinate(t + 1, source, target) - SourceCoordinate(t, source, target)) * target as real == source as real
  {
    CentresApart(t, source);
    CoordinatesAscend(t, source, target);
    RatiosDiffer(ScaledCentre(t, source), ScaledCentre(t + 1, source), target as real, source as real);
  }

  lemma CoordinatesAscend(t: nat, source: nat, target: nat)
    requires source > 0 && t + 1 < target
    ensures Vectors.Ratio(ScaledCentre(t, source), target as real) < Vectors.Ratio(ScaledCentre(t + 1, source), target as real)
  {
    var p, q := Vectors.Ratio(ScaledCentre(t, source), target as real), Vectors.Ratio(ScaledCentre(t + 1, source), target as real);
    CentresApart(t, source);
    Vectors.RatioTimes(ScaledCentre(t, source), target as real);
    Vectors.RatioTimes(ScaledCentre(t + 1, source), target as real);
    Vectors.ScaleOrder(p, q, target as real);
  }

  /** An upsampled pixel of a surface that is linear along each axis has the value of the surface at its source coordinates. */
  lemma UpsampledSurface(src: seq<real>, srcH: nat, srcW: nat, dstH: nat, dstW: nat, y: nat, x: nat, a: real, b: real, c: real, d: real)
    requires srcH > 0 && srcW > 0 && |src| == srcH * srcW && Samples(src, srcH, srcW, a, b, c, d) && y < dstH && x < dstW
    ensures At(Upsampled(src, srcH, srcW, dstH, dstW), dstH, dstW, y, x)
         == Surface(a, b, c, d, SourceCoordinate(y, srcH, dstH), SourceCoordinate(x, srcW, dstW))
  {
    RowFits(dstH, dstW, y);
    IndexOf(dstW, y, x);
    InterpolationIsExact(src, srcH, srcW, SourceCoordinate(y, srcH, dstH), SourceCoordinate(x, srcW, dstW), a, b, c, d);
  }

  lemma InterpolateOnGrid(image: seq<real>, h: nat, w: nat, y: nat, x: nat)
    requires |image| == h * w && y < h && x < w
    ensures 0.0 <= y as real <= (h - 1) as real && 0.0 <= x as real <= (w - 1) as real
    ensures Interpolate(image, h, w, y as real, x as real) == At(image, h, w, y, x)
  {
    assert LineBelow(y as real, h) == y && LineBelow(x as real, w) == x;
  }

  lemma SameSizePixel(src: seq<real>, h: nat, w: nat, i: nat)
    requires |src| == h * w && i < h * w
    ensures h > 0 && w > 0 && UpsampledPixel(src, h, w, h, w, i) == src[i]
  {
    IndexInGrid(h, w, i);
    var y, x := Row(w, i), Column(w, i);
    assert i == y * w + x;
    SameSizeCoordinate(y, h);
    SameSizeCoordinate(x, w);
    InterpolateOnGrid(src, h, w, y, x);
  }

  /** Upsampling to the same size changes nothing. */
  lemma SameSizeIsIdentity(src: seq<real>, h: nat, w: nat)
    requires |src| == h * w
    ensures Upsampled(src, h, w, h, w) == src
  {
    forall i: nat | i < h * w
      ensures h > 0 && w > 0 && UpsampledPixel(src, h, w, h, w, i) == src[i]
    {
      SameSizePixel(src, h, w, i);
    }
  }
}
