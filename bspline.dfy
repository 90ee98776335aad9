/** Rational B-spline curves: evaluation through the basis functions, and sampling to a polyline. */
module BSplineSampler {
  import opened Errors
  import opened VectorOps
  import opened BasisFunctionBuilder
  import opened Canvas

  /** Every control point is planar homogeneous: x, y and a weight. */
  predicate AllPlanar(cpoints: seq<Vector>)
  {
    forall i :: 0 <= i < |cpoints| ==> |cpoints[i]| == 3
  }

  /** The sum over the first n points of ws[i] times component c of point i. */
  function WeightedSum(ws: seq<real>, pts: seq<Vector>, c: nat, n: nat): real
    requires n <= |ws| && n <= |pts|
    requires forall i :: 0 <= i < n ==> c < |pts[i]|
    decreases n
  {
    if n == 0 then 0.0 else WeightedSum(ws, pts, c, n - 1) + ws[n - 1] * pts[n - 1][c]
  }

  /** The homogeneous point sum of ws[i] * pts[i], taken over x, y and the weight. */
  function Combination(ws: seq<real>, pts: seq<Vector>): (r: Vector)
    requires |ws| == |pts| && AllPlanar(pts)
    ensures |r| == 3
  {
    [WeightedSum(ws, pts, 0, |pts|), WeightedSum(ws, pts, 1, |pts|), WeightedSum(ws, pts, 2, |pts|)]
  }

  /** The values of the functions fs at u. */
  function Apply(fs: seq<real -> real>, u: real): (r: seq<real>)
    ensures |r| == |fs|
  {
    seq(|fs|, i requires 0 <= i < |fs| => fs[i](u))
  }

  /** The values at u of all basis functions of degree p. */
  function BasisValues(knots: seq<real>, p: nat, u: real): (r: seq<real>)
    requires |knots| >= p + 1
    ensures |r| == BasisCount(knots, p)
  {
    seq(BasisCount(knots, p), i requires 0 <= i < BasisCount(knots, p) => N(knots, p, i, u))
  }

  /** The homogeneous point of the rational B-spline at u. */
  function CurvePoint(knots: seq<real>, p: nat, cpoints: seq<Vector>, u: real): (r: Vector)
    requires |knots| >= p + 1 && |cpoints| == BasisCount(knots, p) && AllPlanar(cpoints)
    ensures |r| == 3
  {
    Combination(BasisValues(knots, p, u), cpoints)
  }

  /**
   * The weighted sum of the control points at u, as the inner loop of the sampler computes it:
   * each point must have three components, each is scaled by its basis function's value at u.
   */
  method EvaluateAt(bFuncs: seq<real -> real>, cpoints: seq<Vector>, u: real) returns (r: Result<Vector>)
    requires |bFuncs| == |cpoints|
    ensures r.Err? <==> !AllPlanar(cpoints)
    ensures r.Err? ==> r.error == InvalidInput
    ensures r.Ok? ==> AllPlanar(cpoints) && r.value == Combination(Apply(bFuncs, u), cpoints)
  {
    ghost var ws := Apply(bFuncs, u);
    var x, y, w := 0.0, 0.0, 0.0;
    for i := 0 to |cpoints|
      invariant forall j :: 0 <= j < i ==> |cpoints[j]| == 3
      invariant x == WeightedSum(ws, cpoints, 0, i)
      invariant y == WeightedSum(ws, cpoints, 1, i)
      invariant w == WeightedSum(ws, cpoints, 2, i)
    {
      var point := cpoints[i];
      if |point| != 3 {
        return Err(InvalidInput);
      }
      var weight := bFuncs[i](u);
      assert ws[i] == weight;
      x := x + weight * point[0];
      assert x == WeightedSum(ws, cpoints, 0, i + 1);
      y := y + weight * point[1];
      assert y == WeightedSum(ws, cpoints, 1, i + 1);
      w := w + weight * point[2];
      assert w == WeightedSum(ws, cpoints, 2, i + 1);
    }
    return Ok([x, y, w]);
  }

  /** The basis closures evaluated at u are the basis values at u. */
  lemma ApplyBasis(bFuncs: seq<real -> real>, knots: seq<real>, p: nat, u: real)
    requires |knots| >= p + 1 && |bFuncs| == BasisCount(knots, p)
    requires forall i, v :: 0 <= i < |bFuncs| ==> bFuncs[i](v) == N(knots, p, i, v)
    ensures Apply(bFuncs, u) == BasisValues(knots, p, u)
  {
  }

  /** Sampling density of the B-spline: the parameter advances by 1/100 of the knot range. */
  const BSplineSteps: nat := 100

  /** The k-th sampled parameter, knots[0] + k * (knots[last] - knots[0]) / 100. */
  function SampleParam(knots: seq<real>, k: int): real
    requires |knots| >= 1
  {
    knots[0] + k as real * ((knots[|knots| - 1] - knots[0]) / BSplineSteps as real)
  }

  /** How many interior samples lie strictly below the last knot: 99 for a proper range, else none. */
  function InteriorCount(knots: seq<real>): nat
    requires |knots| >= 1
  {
    if knots[0] < knots[|knots| - 1] then BSplineSteps - 1 else 0
  }

  /** A sampled parameter lies below the last knot exactly for the interior steps of a proper range. */
  lemma SampleBelowEnd(knots: seq<real>, k: int)
    requires |knots| >= 1 && 1 <= k <= BSplineSteps
    ensures SampleParam(knots, k) < knots[|knots| - 1] <==> k <= InteriorCount(knots)
  {
    var k0, e := knots[0], knots[|knots| - 1];
    var step := (e - k0) / BSplineSteps as real;
    assert e == k0 + BSplineSteps as real * step;
    assert SampleParam(knots, k) - e == (k - BSplineSteps) as real * step;
    if k0 < e {
      assert step > 0.0;
      SignOfProduct((k - BSplineSteps) as real, step);
    } else {
      assert step <= 0.0;
      SignOfProduct((k - BSplineSteps) as real, step);
    }
  }

  /** Consecutive sampled parameters are one step apart. */
  lemma SampleParamNext(knots: seq<real>, k: int)
    requires |knots| >= 1
    ensures SampleParam(knots, k + 1) == SampleParam(knots, k) + (knots[|knots| - 1] - knots[0]) / BSplineSteps as real
  {
    var step := (knots[|knots| - 1] - knots[0]) / BSplineSteps as real;
    assert (k + 1) as real * step == k as real * step + step;
  }

  /** The sign of a product of two reals. */
  lemma SignOfProduct(a: real, b: real)
    ensures a < 0.0 && b > 0.0 ==> a * b < 0.0
    ensures a >= 0.0 && b > 0.0 ==> a * b >= 0.0
    ensures a <= 0.0 && b <= 0.0 ==> a * b >= 0.0
  {
  }

  /** The conditions under which the sampler draws every interior sample (zero weights aside). */
  predicate Sampleable(degree: nat, cpoints: seq<Vector>, knots: seq<real>)
  {
    && |knots| >= degree + 1
    && |cpoints| == BasisCount(knots, degree)
    && |cpoints| >= 1
    && |cpoints[0]| >= 2
    && (InteriorCount(knots) > 0 ==> AllPlanar(cpoints))
  }

  /** The conditions under which the sampler draws the whole curve (zero weights aside). */
  predicate BSplineWellFormed(degree: nat, cpoints: seq<Vector>, knots: seq<real>)
  {
    Sampleable(degree, cpoints, knots) && |cpoints[|cpoints| - 1]| >= 2
  }

  /** No point the sampler divides by its weight has a zero weight. */
  predicate NonZeroCurveWeights(degree: nat, cpoints: seq<Vector>, knots: seq<real>)
  {
    && (|cpoints| >= 1 && |cpoints[0]| >= 2 ==> Weight(cpoints[0]) != 0.0)
    && (|cpoints| >= 1 && |cpoints[|cpoints| - 1]| >= 2 ==> Weight(cpoints[|cpoints| - 1]) != 0.0)
    && (|knots| >= degree + 1 && |cpoints| == BasisCount(knots, degree) && AllPlanar(cpoints) ==>
          forall k :: 1 <= k <= InteriorCount(knots) ==> Weight(CurvePoint(knots, degree, cpoints, SampleParam(knots, k))) != 0.0)
  }

  /** The Cartesian curve point of the k-th interior sample. */
  function InteriorSample(degree: nat, cpoints: seq<Vector>, knots: seq<real>, k: int): (r: Vector)
    requires Sampleable(degree, cpoints, knots) && NonZeroCurveWeights(degree, cpoints, knots)
    requires 1 <= k <= InteriorCount(knots)
    ensures |r| == 2
  {
    Project(CurvePoint(knots, degree, cpoints, SampleParam(knots, k)))
  }

  /** The first points the sampler draws: the start point, then the interior samples 1 .. k-1. */
  function BSplinePrefix(degree: nat, cpoints: seq<Vector>, knots: seq<real>, k: nat): (r: seq<Vector>)
    requires Sampleable(degree, cpoints, knots) && NonZeroCurveWeights(degree, cpoints, knots)
    requires 1 <= k <= InteriorCount(knots) + 1
    ensures |r| == k
  {
    [Project(cpoints[0])] + seq(k - 1, j requires 0 <= j < k - 1 => InteriorSample(degree, cpoints, knots, j + 1))
  }

  /** The polyline drawn for a B-spline: start, the interior samples, the exact end. */
  function BSplinePolyline(degree: nat, cpoints: seq<Vector>, knots: seq<real>): (r: seq<Vector>)
    requires BSplineWellFormed(degree, cpoints, knots) && NonZeroCurveWeights(degree, cpoints, knots)
  {
    BSplinePrefix(degree, cpoints, knots, InteriorCount(knots) + 1) + [Project(cpoints[|cpoints| - 1])]
  }

  /**
   * One interior sample drawn: the homogeneous point h at the k-th parameter, divided by its
   * weight, is the next point of the polyline.
   */
  lemma InteriorStep(degree: nat, cpoints: seq<Vector>, knots: seq<real>, k: nat, h: Vector)
    requires Sampleable(degree, cpoints, knots) && NonZeroCurveWeights(degree, cpoints, knots)
    requires 1 <= k <= InteriorCount(knots) && AllPlanar(cpoints)
    requires h == CurvePoint(knots, degree, cpoints, SampleParam(knots, k))
    ensures |h| == 3 && h[2] != 0.0
    ensures [h[0] / h[2], h[1] / h[2]] == InteriorSample(degree, cpoints, knots, k)
    ensures Trace(BSplinePrefix(degree, cpoints, knots, k + 1))
      == Trace(BSplinePrefix(degree, cpoints, knots, k)) + [Command.LineTo([h[0] / h[2], h[1] / h[2]])]
    ensures k == 1 ==> Trace(BSplinePrefix(degree, cpoints, knots, 1)) == [Command.MoveTo(Project(cpoints[0]))]
  {
    var q := InteriorSample(degree, cpoints, knots, k);
    assert q[0] == h[0] / h[2] && q[1] == h[1] / h[2];
    assert BSplinePrefix(degree, cpoints, knots, k + 1)[..k] == BSplinePrefix(degree, cpoints, knots, k);
  }

  /**
   * Samples a rational B-spline onto the surface: a move to the first control point, a line to the
   * curve at each parameter knots[0] + k * step below the last knot, a line to the last control
   * point, and a stroke. The basis is built before the path is begun; the number of control points
   * is checked before anything is drawn, their three components only while sampling.
   */
  method BSpline(ctx: Surface, degree: nat, cpoints: seq<Vector>, knots: seq<real>) returns (r: Outcome)
    requires NonZeroCurveWeights(degree, cpoints, knots)
    modifies ctx
    ensures |knots| < degree + 1 ==> r == Fail(InvalidArrayLength) && ctx.path == old(ctx.path)
    ensures |knots| >= degree + 1 && |cpoints| != BasisCount(knots, degree) ==>
      r == Fail(CardinalityMismatch) && ctx.path == []
    ensures |knots| >= degree + 1 && |cpoints| == BasisCount(knots, degree) && (|cpoints| == 0 || |cpoints[0]| < 2) ==>
      r == Fail(InvalidInput) && ctx.path == []
    ensures (|knots| >= degree + 1 && |cpoints| == BasisCount(knots, degree) && |cpoints| >= 1 && |cpoints[0]| >= 2
      && !Sampleable(degree, cpoints, knots)) ==>
      r == Fail(InvalidInput) && ctx.path == [Command.MoveTo(Project(cpoints[0]))]
    ensures (Sampleable(degree, cpoints, knots) && !BSplineWellFormed(degree, cpoints, knots)) ==>
      r == Fail(InvalidInput) && ctx.path == Trace(BSplinePrefix(degree, cpoints, knots, InteriorCount(knots) + 1))
    ensures r.Fail? ==> ctx.strokes == old(ctx.strokes)
    ensures BSplineWellFormed(degree, cpoints, knots) ==>
      r == Pass && ctx.path == Trace(BSplinePolyline(degree, cpoints, knots)) && ctx.strokes == old(ctx.strokes) + [ctx.path]
  {
    var bf := BasisFunctions(degree, knots);
    if bf.Err? {
      return Fail(bf.error);
    }
    var bFuncs := bf.value;
    ctx.BeginPath();
    var numPoints := |cpoints|;
    if numPoints != |bFuncs| {
      return Fail(CardinalityMismatch);
    }
    if numPoints == 0 {
      // the missing first point is not an array
      return Fail(InvalidInput);
    }
    var first := Dehomogenize(cpoints[0]);
    if first.Err? {
      return Fail(first.error);
    }
    ctx.MoveTo(first.value);
    r := DrawInterior(ctx, degree, bFuncs, cpoints, knots);
    if r.Fail? {
      return r;
    }
    var last := Dehomogenize(cpoints[numPoints - 1]);
    if last.Err? {
      return Fail(last.error);
    }
    assert Trace(BSplinePolyline(degree, cpoints, knots))
      == Trace(BSplinePrefix(degree, cpoints, knots, InteriorCount(knots) + 1)) + [Command.LineTo(last.value)] by {
      assert BSplinePolyline(degree, cpoints, knots)[..InteriorCount(knots) + 1]
        == BSplinePrefix(degree, cpoints, knots, InteriorCount(knots) + 1);
    }
    ctx.LineTo(last.value);
    ctx.Stroke();
    return Pass;
  }

  /**
   * The sampling loop of the B-spline: from knots[0] + step, a line to the curve at each parameter
   * below the last knot, where step is 1/100 of the knot range. A control point without exactly
   * three components stops it at the first sample.
   */
  method DrawInterior(ctx: Surface, degree: nat, bFuncs: seq<real -> real>, cpoints: seq<Vector>, knots: seq<real>)
    returns (r: Outcome)
    requires |knots| >= degree + 1 && |cpoints| == BasisCount(knots, degree) && |bFuncs| == |cpoints|
    requires |cpoints| >= 1 && |cpoints[0]| >= 2
    requires forall i, u :: 0 <= i < |bFuncs| ==> bFuncs[i](u) == N(knots, degree, i, u)
    requires NonZeroCurveWeights(degree, cpoints, knots)
    requires ctx.path == [Command.MoveTo(Project(cpoints[0]))]
    modifies ctx
    ensures ctx.strokes == old(ctx.strokes)
    ensures r.Fail? <==> !Sampleable(degree, cpoints, knots)
    ensures r.Fail? ==> r == Fail(InvalidInput) && ctx.path == old(ctx.path)
    ensures r.Pass? ==> ctx.path == Trace(BSplinePrefix(degree, cpoints, knots, InteriorCount(knots) + 1))
  {
    var end := knots[|knots| - 1];
    var step := (end - knots[0]) / BSplineSteps as real;
    var k := 1;
    var u := knots[0] + step;
    while u < end
      invariant 1 <= k <= BSplineSteps && u == SampleParam(knots, k)
      invariant k <= InteriorCount(knots) + 1
      invariant k > 1 ==> Sampleable(degree, cpoints, knots)
      invariant ctx.strokes == old(ctx.strokes)
      invariant k == 1 ==> ctx.path == old(ctx.path)
      invariant k > 1 ==> ctx.path == Trace(BSplinePrefix(degree, cpoints, knots, k))
      decreases BSplineSteps - k
    {
      SampleBelowEnd(knots, k);
      var ok := DrawSample(ctx, degree, bFuncs, cpoints, knots, k, u);
      if !ok {
        return Fail(InvalidInput);
      }
      SampleParamNext(knots, k);
      u := u + step;
      k := k + 1;
    }
    SampleBelowEnd(knots, k);
    return Pass;
  }

  /**
   * One pass of the sampling loop at the k-th parameter u: the weighted sum of the control points,
   * divided by its weight, is drawn as the next line. A control point without exactly three
   * components draws nothing.
   */
  method DrawSample(ctx: Surface, degree: nat, bFuncs: seq<real -> real>, cpoints: seq<Vector>, knots: seq<real>, k: nat, u: real)
    returns (ok: bool)
    requires |knots| >= degree + 1 && |cpoints| == BasisCount(knots, degree) && |bFuncs| == |cpoints|
    requires |cpoints| >= 1 && |cpoints[0]| >= 2
    requires forall i, v :: 0 <= i < |bFuncs| ==> bFuncs[i](v) == N(knots, degree, i, v)
    requires NonZeroCurveWeights(degree, cpoints, knots)
    requires 1 <= k <= InteriorCount(knots) && u == SampleParam(knots, k)
    requires k == 1 ==> ctx.path == [Command.MoveTo(Project(cpoints[0]))]
    requires k > 1 ==> Sampleable(degree, cpoints, knots) && ctx.path == Trace(BSplinePrefix(degree, cpoints, knots, k))
    modifies ctx
    ensures ctx.strokes == old(ctx.strokes)
    ensures ok <==> Sampleable(degree, cpoints, knots)
    ensures !ok ==> ctx.path == old(ctx.path)
    ensures ok ==> ctx.path == Trace(BSplinePrefix(degree, cpoints, knots, k + 1))
  {
    var h := EvaluateAt(bFuncs, cpoints, u);
    if h.Err? {
      return false;
    }
    ApplyBasis(bFuncs, knots, degree, u);
    InteriorStep(degree, cpoints, knots, k, h.value);
    var x, y, w := h.value[0], h.value[1], h.value[2];
    ctx.LineTo([x / w, y / w]);
    return true;
  }

  /** The drawn polyline starts at the first control point, ends at the last, and samples the curve between. */
  lemma BSplinePolylineShape(degree: nat, cpoints: seq<Vector>, knots: seq<real>)
    requires BSplineWellFormed(degree, cpoints, knots) && NonZeroCurveWeights(degree, cpoints, knots)
    ensures |BSplinePolyline(degree, cpoints, knots)| == InteriorCount(knots) + 2
    ensures BSplinePolyline(degree, cpoints, knots)[0] == Project(cpoints[0])
    ensures BSplinePolyline(degree, cpoints, knots)[InteriorCount(knots) + 1] == Project(cpoints[|cpoints| - 1])
    ensures forall k :: 1 <= k <= InteriorCount(knots) ==>
      BSplinePolyline(degree, cpoints, knots)[k] == Project(CurvePoint(knots, degree, cpoints, SampleParam(knots, k)))
  {
  }

  /** Points that differ only at index j give the same sum when the factor at j is 0. */
  lemma {:induction false} WeightedSumLocal(ws: seq<real>, a: seq<Vector>, b: seq<Vector>, c: nat, n: nat, j: nat)
    requires n <= |ws| && n <= |a| && n <= |b|
    requires forall i :: 0 <= i < n ==> c < |a[i]| && c < |b[i]|
    requires forall i :: 0 <= i < n && i != j ==> a[i] == b[i]
    requires j < |ws| && ws[j] == 0.0
    ensures WeightedSum(ws, a, c, n) == WeightedSum(ws, b, c, n)
    decreases n
  {
    if n > 0 {
      WeightedSumLocal(ws, a, b, c, n - 1, j);
    }
  }

  /** Point sets that differ only at index j combine to the same point when the factor at j is 0. */
  lemma CombinationLocal(ws: seq<real>, a: seq<Vector>, b: seq<Vector>, j: nat)
    requires |ws| == |a| == |b| && AllPlanar(a) && AllPlanar(b)
    requires forall i :: 0 <= i < |a| && i != j ==> a[i] == b[i]
    requires j < |ws| && ws[j] == 0.0
    ensures Combination(ws, a) == Combination(ws, b)
  {
    WeightedSumLocal(ws, a, b, 0, |a|, j);
    WeightedSumLocal(ws, a, b, 1, |a|, j);
    WeightedSumLocal(ws, a, b, 2, |a|, j);
  }

  /**
   * Local control: moving control point j does not change the curve outside [knots[j], knots[j+p+1]),
   * where basis function j vanishes.
   */
  lemma LocalControl(knots: seq<real>, p: nat, a: seq<Vector>, b: seq<Vector>, j: nat, u: real)
    requires NonDecreasing(knots) && |knots| >= p + 1
    requires |a| == BasisCount(knots, p) && |b| == |a| && AllPlanar(a) && AllPlanar(b)
    requires forall i :: 0 <= i < |a| && i != j ==> a[i] == b[i]
    requires j < |a| && (u < knots[j] || u >= knots[j + p + 1])
    ensures CurvePoint(knots, p, a, u) == CurvePoint(knots, p, b, u)
  {
    LocalSupport(knots, p, j, u);
    CombinationLocal(BasisValues(knots, p, u), a, b, j);
  }

  /** Every control point multiplied by s. */
  function ScaleAll(cpoints: seq<Vector>, s: real): (r: seq<Vector>)
    ensures |r| == |cpoints|
    ensures forall i :: 0 <= i < |r| ==> |r[i]| == |cpoints[i]|
  {
    seq(|cpoints|, i requires 0 <= i < |cpoints| => Scale(cpoints[i], s))
  }

  /** Scaling every point scales the sum. */
  lemma {:induction false} WeightedSumScale(ws: seq<real>, pts: seq<Vector>, s: real, c: nat, n: nat)
    requires n <= |ws| && n <= |pts|
    requires forall i :: 0 <= i < n ==> c < |pts[i]|
    ensures WeightedSum(ws, ScaleAll(pts, s), c, n) == s * WeightedSum(ws, pts, c, n)
    decreases n
  {
    if n > 0 {
      WeightedSumScale(ws, pts, s, c, n - 1);
      var q := ScaleAll(pts, s);
      assert q[n - 1][c] == s * pts[n - 1][c];
      ScaleStep(WeightedSum(ws, pts, c, n - 1), ws[n - 1], pts[n - 1][c], s);
    }
  }

  /** One step of the scaled sum, over uninterpreted reals. */
  lemma ScaleStep(acc: real, w: real, v: real, s: real)
    ensures s * acc + w * (s * v) == s * (acc + w * v)
  {
  }

  /** Scaling every point scales the combination. */
  lemma CombinationScale(ws: seq<real>, pts: seq<Vector>, s: real)
    requires |ws| == |pts| && AllPlanar(pts)
    ensures AllPlanar(ScaleAll(pts, s))
    ensures Combination(ws, ScaleAll(pts, s)) == Scale(Combination(ws, pts), s)
  {
    var n := |pts|;
    var sp := ScaleAll(pts, s);
    var x, y, w := WeightedSum(ws, pts, 0, n), WeightedSum(ws, pts, 1, n), WeightedSum(ws, pts, 2, n);
    WeightedSumScale(ws, pts, s, 0, n);
    WeightedSumScale(ws, pts, s, 1, n);
    WeightedSumScale(ws, pts, s, 2, n);
    assert Combination(ws, pts) == [x, y, w];
    assert |sp| == n;
    assert WeightedSum(ws, sp, 0, n) == s * x;
    assert WeightedSum(ws, sp, 1, n) == s * y;
    assert WeightedSum(ws, sp, 2, n) == s * w;
    assert Combination(ws, sp) == [s * x, s * y, s * w];
    ScaleThree(x, y, w, s);
  }

  /** A three-component vector scaled, written out. */
  lemma ScaleThree(a: real, b: real, c: real, s: real)
    ensures Scale([a, b, c], s) == [s * a, s * b, s * c]
  {
    var q := Scale([a, b, c], s);
    assert q[0] == s * a && q[1] == s * b && q[2] == s * c;
  }

  /**
   * Projective invariance: multiplying every homogeneous control point by the same nonzero factor
   * leaves every Cartesian curve point in place.
   */
  lemma ProjectiveInvariance(knots: seq<real>, p: nat, cpoints: seq<Vector>, s: real, u: real)
    requires |knots| >= p + 1 && |cpoints| == BasisCount(knots, p) && AllPlanar(cpoints)
    requires s != 0.0 && Weight(CurvePoint(knots, p, cpoints, u)) != 0.0
    ensures AllPlanar(ScaleAll(cpoints, s))
    ensures Weight(CurvePoint(knots, p, ScaleAll(cpoints, s), u)) != 0.0
    ensures Project(CurvePoint(knots, p, ScaleAll(cpoints, s), u)) == Project(CurvePoint(knots, p, cpoints, u))
  {
    CombinationScale(BasisValues(knots, p, u), cpoints, s);
    ProjectScale(CurvePoint(knots, p, cpoints, u), s);
  }

  /** Every control point has weight 1. */
  predicate UnitWeights(cpoints: seq<Vector>)
    requires AllPlanar(cpoints)
  {
    forall i :: 0 <= i < |cpoints| ==> cpoints[i][2] == 1.0
  }

  /** The sum of the first n factors. */
  function Sum(ws: seq<real>, n: nat): real
    requires n <= |ws|
    decreases n
  {
    if n == 0 then 0.0 else Sum(ws, n - 1) + ws[n - 1]
  }

  /** With unit weights, the weight sum is the sum of the factors. */
  lemma {:induction false} WeightedSumUnit(ws: seq<real>, pts: seq<Vector>, n: nat)
    requires |ws| == |pts| && AllPlanar(pts) && UnitWeights(pts) && n <= |pts|
    ensures WeightedSum(ws, pts, 2, n) == Sum(ws, n)
    decreases n
  {
    if n > 0 {
      WeightedSumUnit(ws, pts, n - 1);
    }
  }

  /** The sum of the basis values is the basis sum. */
  lemma {:induction false} BasisValuesSum(knots: seq<real>, p: nat, n: nat, u: real)
    requires |knots| >= p + 1 && n <= BasisCount(knots, p)
    ensures Sum(BasisValues(knots, p, u), n) == BasisSum(knots, p, n, u)
    decreases n
  {
    if n > 0 {
      BasisValuesSum(knots, p, n - 1, u);
      assert BasisValues(knots, p, u)[n - 1] == N(knots, p, n - 1, u);
    }
  }

  /**
   * A non-rational curve (all weights 1) has homogeneous weight exactly 1 wherever the basis is
   * complete, inside [knots[p], knots[|knots|-p-1]): nothing is divided by zero there, and the
   * Cartesian point is the plain weighted sum of the control points.
   */
  lemma UnitWeightCurve(knots: seq<real>, p: nat, cpoints: seq<Vector>, u: real)
    requires NonDecreasing(knots) && |knots| >= p + 1
    requires |cpoints| == BasisCount(knots, p) && AllPlanar(cpoints) && UnitWeights(cpoints)
    requires knots[p] <= u < knots[|knots| - p - 1]
    ensures Weight(CurvePoint(knots, p, cpoints, u)) == 1.0
    ensures Project(CurvePoint(knots, p, cpoints, u))
      == [WeightedSum(BasisValues(knots, p, u), cpoints, 0, |cpoints|), WeightedSum(BasisValues(knots, p, u), cpoints, 1, |cpoints|)]
  {
    PartitionOfUnity(knots, p, u);
    BasisValuesSum(knots, p, |cpoints|, u);
    WeightedSumUnit(BasisValues(knots, p, u), cpoints, |cpoints|);
    UnitProject(CurvePoint(knots, p, cpoints, u));
  }

  /** A planar point of weight 1 projects to its first two components. */
  lemma UnitProject(pt: Vector)
    requires |pt| == 3 && pt[2] == 1.0
    ensures Project(pt) == [pt[0], pt[1]]
  {
    assert Weight(pt) == 1.0;
    assert Project(pt)[0] == pt[0] / 1.0;
    assert Project(pt)[1] == pt[1] / 1.0;
  }

  /** Clamped knots: the first and the last p + 1 knots repeat the end values of the range. */
  predicate Clamped(knots: seq<real>, p: nat)
  {
    && |knots| >= p + 1
    && (forall i :: 0 <= i <= p ==> knots[i] == knots[0])
    && (forall i :: |knots| - p - 1 <= i < |knots| ==> knots[i] == knots[|knots| - 1])
  }

  /** Every interior sampled parameter lies strictly inside the knot range. */
  lemma SampleInside(knots: seq<real>, k: int)
    requires |knots| >= 1 && 1 <= k <= InteriorCount(knots)
    ensures knots[0] < SampleParam(knots, k) < knots[|knots| - 1]
  {
    SampleBelowEnd(knots, k);
    var step := (knots[|knots| - 1] - knots[0]) / BSplineSteps as real;
    assert step > 0.0;
    SignOfProduct(k as real - 1.0, step);
    assert k as real * step == (k as real - 1.0) * step + step;
  }

  /** Unit weights over clamped knots meet the sampler's weight precondition. */
  lemma UnitWeightsNonZero(degree: nat, cpoints: seq<Vector>, knots: seq<real>)
    requires NonDecreasing(knots) && Clamped(knots, degree)
    requires AllPlanar(cpoints) && UnitWeights(cpoints)
    ensures NonZeroCurveWeights(degree, cpoints, knots)
  {
    if |cpoints| == BasisCount(knots, degree) {
      forall k | 1 <= k <= InteriorCount(knots)
        ensures Weight(CurvePoint(knots, degree, cpoints, SampleParam(knots, k))) != 0.0
      {
        SampleInside(knots, k);
        UnitWeightCurve(knots, degree, cpoints, SampleParam(knots, k));
      }
    }
  }

  /** The straight segment from (0,0) to (1,1), degree 1 over [0,0,1,1], is drawn in full. */
  lemma LinearSegmentDrawable()
    ensures BSplineWellFormed(1, [[0.0, 0.0, 1.0], [1.0, 1.0, 1.0]], [0.0, 0.0, 1.0, 1.0])
    ensures NonZeroCurveWeights(1, [[0.0, 0.0, 1.0], [1.0, 1.0, 1.0]], [0.0, 0.0, 1.0, 1.0])
  {
    UnitWeightsNonZero(1, [[0.0, 0.0, 1.0], [1.0, 1.0, 1.0]], [0.0, 0.0, 1.0, 1.0]);
  }
}
