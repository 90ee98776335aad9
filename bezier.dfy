/** Bezier curves: de Casteljau evaluation and sampling of a rational Bezier curve. */
module BezierEvaluator {
  import opened Errors
  import opened VectorOps
  import opened Canvas

  /** All points have the same number of components as the first. */
  predicate SameDimension(c: seq<Vector>)
  {
    forall i :: 0 <= i < |c| ==> |c[i]| == |c[0]|
  }

  /** One de Casteljau level: adjacent points interpolated pairwise, one point fewer. */
  function Level(c: seq<Vector>, pos: real): (r: seq<Vector>)
    requires |c| >= 1 && SameDimension(c)
    ensures |r| == |c| - 1
    ensures SameDimension(r)
    ensures forall i :: 0 <= i < |r| ==> |r[i]| == |c[0]|
  {
    seq(|c| - 1, i requires 0 <= i < |c| - 1 => Interpolate(c[i], c[i + 1], pos))
  }

  /** The point at parameter pos of the Bezier curve with control points c. */
  function BezierPoint(c: seq<Vector>, pos: real): Vector
    requires |c| >= 1 && SameDimension(c)
    decreases |c|
  {
    if |c| == 1 then c[0] else BezierPoint(Level(c, pos), pos)
  }

  /**
   * de Casteljau evaluation, as in the source: interpolate adjacent points into a fresh array,
   * return its only element once a single one is left, and recurse otherwise. Fewer than two
   * points request an array of length -1; points of unequal dimension fail in the interpolation.
   */
  method DeCasteljau(cpoints: seq<Vector>, pos: real) returns (r: Result<Vector>)
    ensures |cpoints| < 2 ==> r == Err(InvalidArrayLength)
    ensures |cpoints| >= 2 && !SameDimension(cpoints) ==> r == Err(DimensionMismatch)
    ensures |cpoints| >= 2 && SameDimension(cpoints) ==> r == Ok(BezierPoint(cpoints, pos))
    decreases |cpoints|
  {
    if |cpoints| == 0 {
      return Err(InvalidArrayLength);
    }
    var numPoints := |cpoints| - 1;
    var res := new Vector[numPoints];
    for i := 0 to numPoints
      invariant forall j :: 0 <= j <= i ==> |cpoints[j]| == |cpoints[0]|
      invariant forall j :: 0 <= j < i ==> res[j] == Interpolate(cpoints[j], cpoints[j + 1], pos)
    {
      var l := Lerp(cpoints[i], cpoints[i + 1], pos);
      if l.Err? {
        return Err(l.error);
      }
      res[i] := l.value;
    }
    assert SameDimension(cpoints);
    assert res[..] == Level(cpoints, pos);
    if numPoints == 1 {
      return Ok(res[0]);
    }
    r := DeCasteljau(res[..], pos);
  }

  /** The curve point has the dimension of the control points. */
  lemma {:induction false} BezierDimension(c: seq<Vector>, pos: real)
    requires |c| >= 1 && SameDimension(c)
    ensures |BezierPoint(c, pos)| == |c[0]|
    decreases |c|
  {
    if |c| > 1 {
      BezierDimension(Level(c, pos), pos);
    }
  }

  /** A two-point curve is the interpolation of its two points. */
  lemma BezierTwoPoints(c: seq<Vector>, pos: real)
    requires |c| == 2 && SameDimension(c)
    ensures BezierPoint(c, pos) == Interpolate(c[0], c[1], pos)
  {
    assert Level(c, pos) == [Interpolate(c[0], c[1], pos)];
  }

  /** The curve starts at its first control point. */
  lemma {:induction false} BezierStart(c: seq<Vector>)
    requires |c| >= 1 && SameDimension(c)
    ensures BezierPoint(c, 0.0) == c[0]
    decreases |c|
  {
    if |c| > 1 {
      var l := Level(c, 0.0);
      forall i | 0 <= i < |l|
        ensures l[i] == c[i]
      {
        InterpolateAtZero(c[i], c[i + 1]);
      }
      BezierStart(l);
    }
  }

  /** The curve ends at its last control point. */
  lemma {:induction false} BezierEnd(c: seq<Vector>)
    requires |c| >= 1 && SameDimension(c)
    ensures BezierPoint(c, 1.0) == c[|c| - 1]
    decreases |c|
  {
    if |c| > 1 {
      var l := Level(c, 1.0);
      forall i | 0 <= i < |l|
        ensures l[i] == c[i + 1]
      {
        InterpolateAtOne(c[i], c[i + 1]);
      }
      BezierEnd(l);
    }
  }

  /** The control points in reverse order. */
  function Reverse(c: seq<Vector>): (r: seq<Vector>)
    ensures |r| == |c|
  {
    seq(|c|, i requires 0 <= i < |c| => c[|c| - 1 - i])
  }

  /** Entry i of the reversed level at 1 - pos is entry |c|-2-i of the level at pos. */
  lemma ReversedPair(c: seq<Vector>, pos: real, i: nat)
    requires |c| >= 2 && SameDimension(c) && i + 1 < |c|
    ensures SameDimension(Reverse(c))
    ensures Level(Reverse(c), 1.0 - pos)[i] == Level(c, pos)[|c| - 2 - i]
  {
    ReverseSameDimension(c);
    var rc := Reverse(c);
    assert rc[i] == c[|c| - 1 - i] && rc[i + 1] == c[|c| - 2 - i];
    assert |c[|c| - 2 - i]| == |c[|c| - 1 - i]|;
    InterpolateSymmetric(c[|c| - 2 - i], c[|c| - 1 - i], pos);
  }

  /** One de Casteljau level of the reversed points, at 1 - pos, is the reversed level at pos. */
  lemma LevelReverse(c: seq<Vector>, pos: real)
    requires |c| >= 2 && SameDimension(c)
    ensures SameDimension(Reverse(c))
    ensures Level(Reverse(c), 1.0 - pos) == Reverse(Level(c, pos))
  {
    ReverseSameDimension(c);
    var l := Level(c, pos);
    var rl := Level(Reverse(c), 1.0 - pos);
    forall i | 0 <= i < |rl|
      ensures rl[i] == l[|c| - 2 - i]
    {
      ReversedPair(c, pos, i);
    }
    ReversedElements(l, rl);
  }

  /** A sequence holding the elements of s from the back is Reverse(s). */
  lemma ReversedElements(s: seq<Vector>, t: seq<Vector>)
    requires |t| == |s| && forall i :: 0 <= i < |t| ==> t[i] == s[|s| - 1 - i]
    ensures t == Reverse(s)
  {
  }

  /** Reversal keeps the points' common dimension. */
  lemma ReverseSameDimension(c: seq<Vector>)
    requires SameDimension(c)
    ensures SameDimension(Reverse(c))
  {
    var rc := Reverse(c);
    assert forall i :: 0 <= i < |rc| ==> |rc[i]| == |c[|c| - 1 - i]|;
  }

  /** Reversing the control points traverses the same curve backwards. */
  lemma {:induction false} BezierReverse(c: seq<Vector>, pos: real)
    requires |c| >= 1 && SameDimension(c)
    ensures SameDimension(Reverse(c))
    ensures BezierPoint(Reverse(c), 1.0 - pos) == BezierPoint(c, pos)
    decreases |c|
  {
    ReverseSameDimension(c);
    if |c| > 1 {
      LevelReverse(c, pos);
      BezierReverse(Level(c, pos), pos);
    }
  }

  /** Interpolation of two three-component points, written out. */
  lemma Interpolate3(a: Vector, b: Vector, t: real)
    requires |a| == 3 && |b| == 3
    ensures Interpolate(a, b, t)
      == [(1.0 - t) * a[0] + t * b[0], (1.0 - t) * a[1] + t * b[1], (1.0 - t) * a[2] + t * b[2]]
  {
    var r := Interpolate(a, b, t);
    assert r[0] == (1.0 - t) * a[0] + t * b[0];
    assert r[1] == (1.0 - t) * a[1] + t * b[1];
    assert r[2] == (1.0 - t) * a[2] + t * b[2];
  }

  /** The cubic with control points (0,0), (0,1), (1,1), (1,0), all of weight 1, at 1/2. */
  lemma CubicMidpoint()
    ensures SameDimension([[0.0, 0.0, 1.0], [0.0, 1.0, 1.0], [1.0, 1.0, 1.0], [1.0, 0.0, 1.0]])
    ensures HasWeight(BezierPoint([[0.0, 0.0, 1.0], [0.0, 1.0, 1.0], [1.0, 1.0, 1.0], [1.0, 0.0, 1.0]], 0.5))
    ensures Project(BezierPoint([[0.0, 0.0, 1.0], [0.0, 1.0, 1.0], [1.0, 1.0, 1.0], [1.0, 0.0, 1.0]], 0.5)) == [0.5, 0.75]
  {
    var c: seq<Vector> := [[0.0, 0.0, 1.0], [0.0, 1.0, 1.0], [1.0, 1.0, 1.0], [1.0, 0.0, 1.0]];
    var l1: seq<Vector> := [[0.0, 0.5, 1.0], [0.5, 1.0, 1.0], [1.0, 0.5, 1.0]];
    var l2: seq<Vector> := [[0.25, 0.75, 1.0], [0.75, 0.75, 1.0]];
    var l3: seq<Vector> := [[0.5, 0.75, 1.0]];
    Interpolate3(c[0], c[1], 0.5);
    Interpolate3(c[1], c[2], 0.5);
    Interpolate3(c[2], c[3], 0.5);
    assert Level(c, 0.5) == l1;
    Interpolate3(l1[0], l1[1], 0.5);
    Interpolate3(l1[1], l1[2], 0.5);
    assert Level(l1, 0.5) == l2;
    Interpolate3(l2[0], l2[1], 0.5);
    assert Level(l2, 0.5) == l3;
    assert BezierPoint(c, 0.5) == [0.5, 0.75, 1.0];
    var q := Project([0.5, 0.75, 1.0]);
    assert Weight([0.5, 0.75, 1.0]) == 1.0;
    assert q[0] == 0.5 / 1.0 && q[1] == 0.75 / 1.0;
  }

  /** Sampling density of the rational Bezier curve: the parameter advances by 1/10000. */
  const BezierSamples: nat := 10000

  /** The k-th sampled parameter, k / 10000. */
  function Param(k: int): real
  {
    k as real / BezierSamples as real
  }

  /** Control points a rational Bezier curve can be sampled from. */
  predicate BezierWellFormed(c: seq<Vector>)
  {
    |c| >= 2 && SameDimension(c) && |c[0]| >= 2
  }

  /** The homogeneous curve point sampled at step k. */
  function Sample(c: seq<Vector>, k: int): Vector
    requires BezierWellFormed(c)
  {
    BezierPoint(c, Param(k))
  }

  /** No point of the curve that is dehomogenized has a zero weight. */
  predicate NonZeroWeights(c: seq<Vector>)
  {
    && (|c| >= 1 && |c[0]| >= 2 ==> Weight(c[0]) != 0.0)
    && (|c| >= 1 && |c[|c| - 1]| >= 2 ==> Weight(c[|c| - 1]) != 0.0)
    && (BezierWellFormed(c) ==> forall k :: 0 <= k < BezierSamples ==> |Sample(c, k)| >= 1 && Weight(Sample(c, k)) != 0.0)
  }

  /** The first k points the sampler draws: the start point, then the samples 0 .. k-1. */
  function BezierPrefix(c: seq<Vector>, k: nat): (r: seq<Vector>)
    requires BezierWellFormed(c) && NonZeroWeights(c) && k <= BezierSamples
    ensures |r| == k + 1
  {
    [Project(c[0])] + seq(k, j requires 0 <= j < k => (BezierDimension(c, Param(j)); Project(Sample(c, j))))
  }

  /** The polyline drawn for a rational Bezier curve: start, 10000 samples, exact end. */
  function BezierPolyline(c: seq<Vector>): (r: seq<Vector>)
    requires BezierWellFormed(c) && NonZeroWeights(c)
  {
    BezierPrefix(c, BezierSamples) + [Project(c[|c| - 1])]
  }

  /** Every control point has the weight 1. */
  predicate UnitWeighted(c: seq<Vector>)
  {
    forall i :: 0 <= i < |c| ==> |c[i]| >= 1 && Weight(c[i]) == 1.0
  }

  /** Interpolating two points of weight 1 gives a point of weight 1. */
  lemma InterpolateUnitWeight(a: Vector, e: Vector, pos: real)
    requires |a| == |e| && |a| >= 1 && Weight(a) == 1.0 && Weight(e) == 1.0
    ensures |Interpolate(a, e, pos)| >= 1 && Weight(Interpolate(a, e, pos)) == 1.0
  {
    var m := Interpolate(a, e, pos);
    assert m[|a| - 1] == (1.0 - pos) * a[|a| - 1] + pos * e[|a| - 1];
  }

  /** One interpolation level of points of weight 1 consists of points of weight 1. */
  lemma LevelUnitWeighted(c: seq<Vector>, pos: real)
    requires |c| >= 1 && SameDimension(c) && UnitWeighted(c)
    ensures UnitWeighted(Level(c, pos))
  {
    var l := Level(c, pos);
    forall i | 0 <= i < |l|
      ensures |l[i]| >= 1 && Weight(l[i]) == 1.0
    {
      InterpolateUnitWeight(c[i], c[i + 1], pos);
    }
  }

  /** A curve whose control points all have weight 1 has weight 1 at every parameter. */
  lemma {:induction false} BezierUnitWeight(c: seq<Vector>, pos: real)
    requires |c| >= 1 && SameDimension(c) && UnitWeighted(c)
    ensures |BezierPoint(c, pos)| >= 1 && Weight(BezierPoint(c, pos)) == 1.0
    decreases |c|
  {
    if |c| > 1 {
      LevelUnitWeighted(c, pos);
      BezierUnitWeight(Level(c, pos), pos);
    }
  }

  /** Control points of weight 1 meet the sampler's weight precondition. */
  lemma UnitWeightedNonZero(c: seq<Vector>)
    requires SameDimension(c) && UnitWeighted(c)
    ensures NonZeroWeights(c)
  {
    if BezierWellFormed(c) {
      forall k | 0 <= k < BezierSamples
        ensures |Sample(c, k)| >= 1 && Weight(Sample(c, k)) != 0.0
      {
        BezierUnitWeight(c, Param(k));
      }
    }
  }

  /** Extending the drawn prefix by one sample appends one line to its calls. */
  lemma BezierPrefixStep(c: seq<Vector>, k: nat)
    requires BezierWellFormed(c) && NonZeroWeights(c) && k < BezierSamples
    ensures HasWeight(Sample(c, k))
    ensures Trace(BezierPrefix(c, k + 1)) == Trace(BezierPrefix(c, k)) + [Command.LineTo(Project(Sample(c, k)))]
    ensures k == 0 ==> Trace(BezierPrefix(c, 0)) == [Command.MoveTo(Project(c[0]))]
  {
    BezierDimension(c, Param(k));
    assert BezierPrefix(c, k + 1)[..k + 1] == BezierPrefix(c, k);
  }

  /** The whole polyline traces as the sampled prefix followed by a line to the last control point. */
  lemma BezierPolylineLast(c: seq<Vector>)
    requires BezierWellFormed(c) && NonZeroWeights(c)
    ensures HasWeight(c[|c| - 1])
    ensures Trace(BezierPolyline(c)) == Trace(BezierPrefix(c, BezierSamples)) + [Command.LineTo(Project(c[|c| - 1]))]
  {
    var poly := BezierPolyline(c);
    assert poly[..|poly| - 1] == BezierPrefix(c, BezierSamples);
  }

  /**
   * Samples a rational Bezier curve onto the surface: a move to the first control point, a line to
   * the curve at each parameter k/10000 for k = 0 .. 9999, a line to the last control point, and a
   * stroke. The path is begun before anything can fail; a failure leaves it unstroked.
   */
  method RationalBezier(ctx: Surface, cpoints: seq<Vector>) returns (r: Outcome)
    requires NonZeroWeights(cpoints)
    modifies ctx
    ensures (|cpoints| == 0 || |cpoints[0]| < 2) ==> r == Fail(InvalidInput) && ctx.path == []
    ensures |cpoints| == 1 && |cpoints[0]| >= 2 ==>
      r == Fail(InvalidArrayLength) && ctx.path == [Command.MoveTo(Project(cpoints[0]))]
    ensures |cpoints| >= 2 && |cpoints[0]| >= 2 && !SameDimension(cpoints) ==>
      r == Fail(DimensionMismatch) && ctx.path == [Command.MoveTo(Project(cpoints[0]))]
    ensures r.Fail? ==> ctx.strokes == old(ctx.strokes)
    ensures BezierWellFormed(cpoints) ==>
      r == Pass && ctx.path == Trace(BezierPolyline(cpoints)) && ctx.strokes == old(ctx.strokes) + [ctx.path]
  {
    ctx.BeginPath();
    if |cpoints| == 0 {
      // the missing first point is not an array
      return Fail(InvalidInput);
    }
    var first := Dehomogenize(cpoints[0]);
    if first.Err? {
      return Fail(first.error);
    }
    ctx.MoveTo(first.value);
    var k := 0;
    var p := 0.0;
    while p < 1.0
      invariant 0 <= k <= BezierSamples && p == Param(k)
      invariant k > 0 ==> BezierWellFormed(cpoints)
      invariant ctx.strokes == old(ctx.strokes)
      invariant k == 0 ==> ctx.path == [Command.MoveTo(Project(cpoints[0]))]
      invariant k > 0 ==> ctx.path == Trace(BezierPrefix(cpoints, k))
      decreases BezierSamples - k
    {
      var step := DrawBezierSample(ctx, cpoints, k, p);
      if step.Fail? {
        return step;
      }
      k := k + 1;
      p := p + 0.0001;
    }
    var last := Dehomogenize(cpoints[|cpoints| - 1]);
    BezierPolylineLast(cpoints);
    ctx.LineTo(last.value);
    ctx.Stroke();
    return Pass;
  }

  /**
   * One pass of the sampling loop: the curve point at parameter p, dehomogenized, as a line on
   * the surface. It fails, drawing nothing, exactly when the control points do not form a curve.
   */
  method DrawBezierSample(ctx: Surface, cpoints: seq<Vector>, k: nat, p: real) returns (r: Outcome)
    requires NonZeroWeights(cpoints) && |cpoints| >= 1 && |cpoints[0]| >= 2
    requires k < BezierSamples && p == Param(k)
    requires k == 0 ==> ctx.path == [Command.MoveTo(Project(cpoints[0]))]
    requires k > 0 ==> BezierWellFormed(cpoints) && ctx.path == Trace(BezierPrefix(cpoints, k))
    modifies ctx
    ensures ctx.strokes == old(ctx.strokes)
    ensures r.Fail? <==> !BezierWellFormed(cpoints)
    ensures r.Fail? ==> ctx.path == old(ctx.path)
    ensures r.Fail? ==> r.error == if |cpoints| < 2 then InvalidArrayLength else DimensionMismatch
    ensures r.Pass? ==> ctx.path == Trace(BezierPrefix(cpoints, k + 1))
  {
    var pnt := DeCasteljau(cpoints, p);
    if pnt.Err? {
      return Fail(pnt.error);
    }
    BezierPrefixStep(cpoints, k);
    // cannot fail: the curve point has the dimension of the control points
    var q := Dehomogenize(pnt.value);
    ctx.LineTo(q.value);
    return Pass;
  }

  /** The drawn polyline starts at the first control point, which the sample at 0 repeats. */
  lemma BezierPolylineStart(c: seq<Vector>)
    requires BezierWellFormed(c) && NonZeroWeights(c)
    ensures BezierPolyline(c)[0] == Project(c[0])
    ensures BezierPolyline(c)[1] == Project(c[0])
  {
    BezierStart(c);
    assert Param(0) == 0.0;
  }

  /** The drawn polyline ends at the last control point, the curve point at parameter 1. */
  lemma BezierPolylineEnd(c: seq<Vector>)
    requires BezierWellFormed(c) && NonZeroWeights(c)
    ensures |BezierPolyline(c)| == BezierSamples + 2
    ensures BezierPolyline(c)[BezierSamples + 1] == Project(c[|c| - 1])
    ensures BezierPoint(c, 1.0) == c[|c| - 1]
    ensures BezierPolyline(c)[BezierSamples + 1] == Project(BezierPoint(c, 1.0))
  {
    BezierEnd(c);
  }

  /** The segment from (0,0) to (1,1) as a rational Bezier curve of weight 1 is drawn in full. */
  lemma LinearSegmentDrawable()
    ensures BezierWellFormed([[0.0, 0.0, 1.0], [1.0, 1.0, 1.0]])
    ensures NonZeroWeights([[0.0, 0.0, 1.0], [1.0, 1.0, 1.0]])
  {
    UnitWeightedNonZero([[0.0, 0.0, 1.0], [1.0, 1.0, 1.0]]);
  }
}
