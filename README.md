# splines.js curve core in Dafny

This project models the curve mathematics of the NURBS demos in `splines.js`, over exact reals:

- component-wise linear interpolation of vectors (`lerp`) and the division of a homogeneous point by its weight (`dehomogenize`);
- de Casteljau evaluation of a Bezier curve (`deCasteljau`), and the sampling of a rational Bezier curve onto a canvas (`rationalBezier`);
- the construction of the B-spline basis functions of a degree over a knot vector (`bSplineBasisFuncs`): degree-0 indicators of half-open knot spans, raised one degree at a time by a four-way blending rule that never divides by a span of width `<= 0`;
- the evaluation of a rational B-spline as the weighted sum of its control points (x, y and weight), and its sampling onto a canvas (`bSpline`).

Modules, one per file:

- `Errors` (`errors.dfy`): the error kinds and the `Result`/`Outcome` wrappers. A thrown exception becomes a named error:
  - a string thrown by `lerp` becomes `DimensionMismatch`;
  - a string thrown by `dehomogenize` becomes `InvalidInput`;
  - the two `throw null` of `bSpline` become `CardinalityMismatch` and `InvalidInput`;
  - the `RangeError` of `new Array(-1)` becomes `InvalidArrayLength`.
- `VectorOps` (`vector_ops.dfy`): `Lerp` and `Dehomogenize` are methods filling a fresh array in a loop, as the source does. They are proved against the pure `Interpolate` and `Project`, together with the homogeneous round trips.
- `Canvas` (`canvas.dfy`): the drawing surface, a class `Surface` whose path (the `moveTo`/`lineTo` calls since `beginPath`) and stroked paths are sequences that its methods extend. `Trace(points)` is the call list that draws a polyline.
- `BezierEvaluator` (`bezier.dfy`):
  - `DeCasteljau` is the array-filling recursive method. It is proved equal to the pure `BezierPoint`, which applies `Level` repeatedly.
  - The endpoint, reversal and dimension laws of the curve are proved as lemmas.
  - `RationalBezier` is proved to leave exactly `Trace(BezierPolyline(c))` on the surface, and to stroke it.
- `BasisFunctionBuilder` (`basis.dfy`):
  - The closures of `bSplineBasisFuncs` are re-expressed as the recursive function `N(knots, p, i, u)`, rule for rule. `Blended` is the four-way rule.
  - `BasisFunctions` builds actual closures, as the source does, and proves each of them equal to `N`.
  - Lemmas prove local support, non-negativity, agreement with the textbook Cox-de Boor recursion (with 0/0 = 0) and partition of unity.
- `BSplineSampler` (`bspline.dfy`):
  - `EvaluateAt` is the inner accumulation loop, proved equal to `Combination` over the basis values.
  - `BSpline`, with `DrawInterior` (the sampling loop) and `DrawSample` (one pass of it), is proved to leave exactly `Trace(BSplinePolyline(...))` on the surface, or to stop with the right error after drawing a stated prefix.
  - Lemmas prove local control, invariance under scaling of the homogeneous control points, and that unit weights give the ordinary (non-rational) B-spline.

Floating-point steps are modelled exactly:

- The Bezier parameter of sample `k` is `k/10000`, for `k = 0 .. 9999`.
- The B-spline parameter of sample `k` is `knots[0] + k * (knots[last] - knots[0]) / 100`, for `k = 1, 2, ...` while it stays below the last knot. That gives 99 interior samples for a proper range, and none when `knots[0] >= knots[last]` (`SampleBelowEnd`).

In these edge cases the code behaves in ways a reader may not expect; the model follows the code:

- **One control point, Bezier.** `deCasteljau` needs at least two points: for one point it recurses on an empty array and requests an array of length -1 (`InvalidArrayLength`). For none it requests that array at once.
- **Too few knots.** `bSplineBasisFuncs` fails (length -1) when there are fewer than `degree + 1` knots. With exactly `degree + 1` knots it returns no functions.
- **Where `bSpline` checks its input.**
  - It checks the number of control points once, before the first point is drawn.
  - It checks the three components of a point only inside the sampling loop. A knot vector without interior samples therefore never checks them.
  - It dehomogenizes the last control point only after sampling.
  - Its first sampled parameter is `knots[0] + step`; the start of the path is the first control point.

## Model

| member | source | states |
|---|---|---|
| VectorOps.Lerp | splines.js:31-40 | fails with DimensionMismatch exactly when the dimensions differ; otherwise the result has the dimension of `a` and component `i` is `(1-pos)*a[i] + pos*b[i]`, for any real `pos`, so it is `Interpolate(a, b, pos)` and the boundary laws below apply to it |
| VectorOps.InterpolateAtZero | splines.js:36-38 | interpolation at position 0 gives the first vector |
| VectorOps.InterpolateAtOne | splines.js:36-38 | interpolation at position 1 gives the second vector |
| VectorOps.InterpolateSymmetric | splines.js:36-38 | interpolating from `b` to `a` at `1-pos` gives the same vector as from `a` to `b` at `pos` |
| VectorOps.Dehomogenize | splines.js:52-61 | fails with InvalidInput exactly when the point has fewer than two components; otherwise returns the `|point|-1` leading components divided by the weight (`Project`) |
| VectorOps.ProjectHomogenize | splines.js:55-59 | for a nonzero weight, a homogenized Cartesian point can be dehomogenized exactly when it is not empty, and gives back the Cartesian point |
| VectorOps.HomogenizeProject | splines.js:55-59 | a point with a nonzero weight is its own dehomogenized part scaled back by its weight |
| VectorOps.ProjectPlanarRoundTrip | splines.js:55-59 | for `w != 0`, `[x*w, y*w, w]` dehomogenizes to `[x, y]` |
| VectorOps.ProjectScale | splines.js:55-59 | scaling a homogeneous point by a nonzero factor leaves its dehomogenized point unchanged |
| Canvas.TraceAt | splines.js:64-71 | the calls drawing a polyline of `n` points are `n` in number: a move to the first point, then a line to each later point in order |
| BezierEvaluator.DeCasteljau | splines.js:42-50 | fewer than two points fail with InvalidArrayLength; points of unequal dimension fail with DimensionMismatch; otherwise the result is the curve point `BezierPoint(cpoints, pos)`, one interpolation level per recursion |
| BezierEvaluator.BezierDimension | splines.js:42-50 | the curve point has the dimension of the control points |
| BezierEvaluator.BezierTwoPoints | splines.js:45-48 | for two control points the curve point is the interpolation of the two |
| BezierEvaluator.BezierStart | splines.js:42-50 | at position 0 the curve point is the first control point |
| BezierEvaluator.BezierEnd | splines.js:42-50 | at position 1 the curve point is the last control point |
| BezierEvaluator.LevelReverse | splines.js:45-46 | one interpolation level of the reversed points at `1-pos` is the reversed level at `pos` |
| BezierEvaluator.BezierReverse | splines.js:42-50 | reversing the control points traverses the same curve backwards: the point at `1-pos` of the reversed curve is the point at `pos` |
| BezierEvaluator.CubicMidpoint | splines.js:42-61 | the cubic with control points (0,0,1), (0,1,1), (1,1,1), (1,0,1) at 1/2 dehomogenizes to (0.5, 0.75) |
| BezierEvaluator.BezierPrefixStep | splines.js:66-69 | drawing the next sample appends one line, to the dehomogenized curve point at `k/10000`, to the calls already made |
| BezierEvaluator.BezierPolylineLast | splines.js:70 | the whole polyline traces as the sampled prefix followed by one line to the dehomogenized last control point |
| BezierEvaluator.DrawBezierSample | splines.js:67-68 | one pass of the sampling loop fails, drawing nothing, exactly when the control points do not form a curve (with the error de Casteljau raises); otherwise it extends the path by the next sample |
| BezierEvaluator.RationalBezier | splines.js:63-72 | no points, or a first point with fewer than two components: InvalidInput on an empty path; one point: InvalidArrayLength after the move to it; unequal dimensions: DimensionMismatch after the move; a failure strokes nothing; a well-formed curve leaves exactly the polyline of the start, the 10000 samples and the last control point on the path and strokes it |
| BezierEvaluator.BezierPolylineStart | splines.js:65-67 | the polyline begins at the dehomogenized first control point, and its first sample (at 0) repeats it |
| BezierEvaluator.BezierPolylineEnd | splines.js:70 | the polyline has 10002 points and ends at the dehomogenized last control point, which is the curve point at parameter 1 |
| BezierEvaluator.InterpolateUnitWeight | splines.js:36-38 | interpolating two points of weight 1 gives a point of weight 1 |
| BezierEvaluator.LevelUnitWeighted | splines.js:45-46 | one interpolation level of points of weight 1 consists of points of weight 1 |
| BezierEvaluator.BezierUnitWeight | splines.js:42-50 | a curve whose control points all have weight 1 has weight 1 at every parameter |
| BezierEvaluator.UnitWeightedNonZero | splines.js:65-70 | control points of one dimension and weight 1 meet the weight precondition of `RationalBezier`: nothing it dehomogenizes has weight 0 |
| BezierEvaluator.LinearSegmentDrawable | splines.js:63-72 | the two-point curve from (0,0) to (1,1) of weight 1 is well formed and meets the weight precondition, so `RationalBezier` draws it in full and returns Pass |
| BasisFunctionBuilder.Split | splines.js:95-101 | the four-way rule is the falling term plus the rising term, each dropped when its span width is `<= 0` |
| BasisFunctionBuilder.Blend | splines.js:92-103 | the closure built for two functions and four knots evaluates, at every `x`, to the four-way rule over the span widths `stop2-start` and `end-stop1` |
| BasisFunctionBuilder.Indicators | splines.js:79-87 | the degree-0 closures are `|knots|-1` in number, and closure `i` is 1 exactly on `[knots[i], knots[i+1])` and 0 elsewhere |
| BasisFunctionBuilder.BasisFunctions | splines.js:74-105 | fails with InvalidArrayLength exactly when there are fewer than `degree+1` knots; otherwise returns `|knots|-degree-1` closures, each equal everywhere to the basis function `N(knots, degree, i, u)` |
| BasisFunctionBuilder.ZeroWidthIndicator | splines.js:84 | the indicator of a zero-width span `[k, k)` is identically 0 |
| BasisFunctionBuilder.LocalSupport | splines.js:82-103 | over non-decreasing knots, basis function `i` of degree `p` is 0 for `u < knots[i]` and for `u >= knots[i+p+1]` |
| BasisFunctionBuilder.NonNegative | splines.js:82-103 | over non-decreasing knots every basis function is `>= 0` everywhere |
| BasisFunctionBuilder.VanishesAtLastKnot | splines.js:84 | at the last knot every basis function is 0, because the spans are half-open |
| BasisFunctionBuilder.LinearExample | splines.js:88-103 | degree 1 over the knots `[0,0,1,1]` gives 2 functions, each 0.5 at `u = 0.5` |
| BasisFunctionBuilder.RatioForm | splines.js:95-101 | for spans of non-negative width the four-way rule equals the textbook blend with 0/0 taken as 0 |
| BasisFunctionBuilder.MatchesCoxDeBoor | splines.js:82-103 | over non-decreasing knots the basis functions equal the textbook Cox-de Boor recursion with 0/0 taken as 0 |
| BasisFunctionBuilder.SplitN | splines.js:101 | a basis function of positive degree is its falling term plus its rising term |
| BasisFunctionBuilder.Complementary | splines.js:98-100 | over one span, the falling and the rising term of the same value add up to that value |
| BasisFunctionBuilder.Overlap | splines.js:92-103 | the falling term of function `j-1` and the rising term of function `j` add up to function `j` of the degree below |
| BasisFunctionBuilder.IndicatorSum | splines.js:82-85 | from `knots[0]` on, the first `n` indicators sum to 1 below `knots[n]` and to 0 from it on |
| BasisFunctionBuilder.Telescope | splines.js:92-103 | the sum of degree-`p` functions is the sum of the degree below, minus its first function, plus the two boundary terms |
| BasisFunctionBuilder.PartitionStep | splines.js:92-103 | inside `[knots[p], knots[last-p])` the sum of all degree-`p` functions equals the sum of all degree-`(p-1)` functions |
| BasisFunctionBuilder.PartitionOfUnity | splines.js:74-105 | over non-decreasing knots, at every `u` in `[knots[p], knots[|knots|-p-1])` the degree-`p` basis functions sum to 1 |
| BSplineSampler.EvaluateAt | splines.js:118-127 | fails with InvalidInput exactly when some control point does not have three components; otherwise returns the sums of `bFuncs[i](u)` times x, y and weight of point `i` |
| BSplineSampler.SampleBelowEnd | splines.js:116-117 | for `1 <= k <= 100`, the `k`-th parameter is below the last knot exactly when `k <= 99` and the knot range is proper |
| BSplineSampler.SampleParamNext | splines.js:116-117 | consecutive sampled parameters are one step `(knots[last]-knots[0])/100` apart |
| BSplineSampler.InteriorStep | splines.js:118-128 | the weighted sum at the `k`-th parameter has a nonzero weight, `(x/w, y/w)` is the `k`-th interior sample, and drawing it extends the traced prefix by one line |
| BSplineSampler.DrawSample | splines.js:118-128 | one pass of the sampling loop fails, drawing nothing, exactly when the control points are not all three-component; otherwise it extends the path by the next interior sample |
| BSplineSampler.DrawInterior | splines.js:117-129 | the sampling loop fails with InvalidInput, leaving the path as it was, exactly when a sampled control point is malformed; otherwise the path holds the start and all interior samples; nothing is stroked |
| BSplineSampler.BSpline | splines.js:107-132 | too few knots: InvalidArrayLength before the path is begun; a control-point count other than the basis count: CardinalityMismatch on an empty path; a missing or short first point: InvalidInput on an empty path; a malformed point met while sampling: InvalidInput after the move; a short last point: InvalidInput after all samples; a failure strokes nothing; otherwise the path is exactly the start, the interior samples and the last control point, and it is stroked |
| BSplineSampler.BSplinePolylineShape | splines.js:114-130 | the polyline has `InteriorCount+2` points, starts and ends at the dehomogenized first and last control points, and its interior point `k` is the dehomogenized curve point at the `k`-th parameter |
| BSplineSampler.WeightedSumLocal | splines.js:119-126 | a component sum does not depend on a point whose weight is 0 |
| BSplineSampler.CombinationLocal | splines.js:119-127 | the weighted sum does not depend on a point whose weight is 0 |
| BSplineSampler.LocalControl | splines.js:118-127 | moving control point `j` does not change the curve point at any `u` outside `[knots[j], knots[j+p+1])` |
| BSplineSampler.WeightedSumScale | splines.js:124-126 | scaling every point by `s` scales each component sum by `s` |
| BSplineSampler.CombinationScale | splines.js:118-127 | scaling every point by `s` scales the homogeneous weighted sum by `s` |
| BSplineSampler.ProjectiveInvariance | splines.js:118-128 | scaling all homogeneous control points by a nonzero factor leaves every drawn curve point unchanged |
| BSplineSampler.WeightedSumUnit | splines.js:126 | with unit weights the weight sum is the sum of the basis values |
| BSplineSampler.BasisValuesSum | splines.js:123 | the basis values summed are the basis sum |
| BSplineSampler.UnitWeightCurve | splines.js:118-128 | with unit weights, inside the valid knot range the weight sum is 1 and the drawn point is the plain weighted sum of the x and y coordinates |
| BSplineSampler.SampleInside | splines.js:116-117 | every interior sampled parameter lies strictly between the first and the last knot |
| BSplineSampler.UnitWeightsNonZero | splines.js:117-130 | over non-decreasing clamped knots, three-component control points of weight 1 meet the weight precondition of `BSpline`: neither end point nor any sampled curve point has weight 0 |
| BSplineSampler.LinearSegmentDrawable | splines.js:107-132 | degree 1 over `[0,0,1,1]` with the control points (0,0,1) and (1,1,1) is well formed and meets the weight precondition, so `BSpline` draws it in full and returns Pass |

## Left out

- `plotFunc` (splines.js:19-29): canvas plotting of an arbitrary function with fixed pixel constants. It has no curve logic.
- The browser canvas: `beginPath`, `moveTo`, `lineTo` and `stroke` are recorded on the `Canvas.Surface` class as a sequence of commands. Nothing is rendered. The variable-arity `moveTo.apply` becomes a call taking one vector.
- Floating point: all arithmetic is on exact reals.
  - The accumulated `p += .0001` and `u += step` are modelled as the exact parameters `k/10000` and `knots[0] + k*step`. The iteration counts and samples that rounding drift would produce are not modelled.
  - The exact model gives 10000 Bezier samples and 99 B-spline samples.
- The `|0` coercions to 32-bit integers: lengths and indices are unbounded naturals. The degree is a `nat`, so a negative or fractional degree is not modelled.
- The duplicated declarations of `len` and `res` (splines.js:76-81) have no effect of their own, except that they fail for an empty knot vector, which is modelled.
- Dynamic typing: inputs that are not arrays of numbers, and control points that are `undefined` beyond the special cases above, are not modelled.
- VectorOps.Dehomogenize: a zero weight is a precondition. JavaScript would produce infinities or NaN.
- BezierEvaluator.RationalBezier: a zero weight of the end points or of any sampled curve point is a precondition (`NonZeroWeights`), for the same reason.
- BSplineSampler.BSpline: a zero weight of the end points, or a zero total weight of any sampled curve point, is a precondition (`NonZeroCurveWeights`). The division at splines.js:128 would otherwise yield infinities or NaN.
- The messages of the thrown strings and the `null` thrown by `bSpline` are not modelled. The model returns one closed error kind per failure.
- The cost of the nested closures is not modelled. Evaluating a degree-`p` closure re-evaluates its sub-closures each time; the model states only its value.
