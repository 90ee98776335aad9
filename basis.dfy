/** B-spline basis functions built from a degree and a knot vector by the Cox-de Boor recursion. */
module BasisFunctionBuilder {
  import opened Errors

  /** Knots in non-decreasing order. */
  predicate NonDecreasing(knots: seq<real>)
  {
    forall i, j :: 0 <= i <= j < |knots| ==> knots[i] <= knots[j]
  }

  /**
   * The value at u of basis function i of degree p. Degree 0 is the indicator of the half-open
   * span [knots[i], knots[i+1]). A higher degree blends functions i and i+1 of the degree below
   * by the four-way rule of Blended.
   */
  function N(knots: seq<real>, p: nat, i: nat, u: real): real
    requires i + p + 1 < |knots|
    decreases p
  {
    if p == 0 then
      if knots[i] <= u < knots[i + 1] then 1.0 else 0.0
    else
      Blended(knots[i], knots[i + 1], knots[i + p], knots[i + p + 1], u, N(knots, p - 1, i, u), N(knots, p - 1, i + 1, u))
  }

  /**
   * The blend of f and g, the values at u of the two functions of the degree below, over the span
   * widths diff1 = stop2 - start and diff2 = end - stop1: a term whose width is not positive is
   * dropped, so that no width <= 0 is divided by.
   */
  function Blended(start: real, stop1: real, stop2: real, end: real, u: real, f: real, g: real): real
  {
    var diff1, diff2 := stop2 - start, end - stop1;
    if diff1 <= 0.0 && diff2 <= 0.0 then 0.0
    else if diff1 <= 0.0 then (end - u) / diff2 * g
    else if diff2 <= 0.0 then (u - start) / diff1 * f
    else (end - u) / diff2 * g + (u - start) / diff1 * f
  }

  /** The rising term (u - start) / (stop2 - start) * f, or 0 when the span is empty. */
  function Rising(start: real, stop2: real, u: real, f: real): real
  {
    if stop2 - start <= 0.0 then 0.0 else (u - start) / (stop2 - start) * f
  }

  /** The falling term (end - u) / (end - stop1) * g, or 0 when the span is empty. */
  function Falling(stop1: real, end: real, u: real, g: real): real
  {
    if end - stop1 <= 0.0 then 0.0 else (end - u) / (end - stop1) * g
  }

  /** The four-way rule is the sum of the falling and the rising term. */
  lemma Split(start: real, stop1: real, stop2: real, end: real, u: real, f: real, g: real)
    ensures Blended(start, stop1, stop2, end, u, f, g) == Falling(stop1, end, u, g) + Rising(start, stop2, u, f)
  {
  }

  /** How many basis functions of degree p a knot vector defines. */
  function BasisCount(knots: seq<real>, p: nat): int
  {
    |knots| - p - 1
  }

  /**
   * Builds the basis functions of the given degree, as the source does: the degree-0 indicators,
   * or the functions of the degree below blended pairwise, each closure capturing its four knots.
   * An array of length -1 is requested when there are fewer than degree + 1 knots.
   */
  method BasisFunctions(degree: nat, knots: seq<real>) returns (r: Result<seq<real -> real>>)
    ensures r.Err? <==> |knots| < degree + 1
    ensures r.Err? ==> r.error == InvalidArrayLength
    ensures r.Ok? ==> |r.value| == BasisCount(knots, degree)
    ensures r.Ok? ==> forall i, u :: 0 <= i < |r.value| ==> r.value[i](u) == N(knots, degree, i, u)
    decreases degree
  {
    if |knots| == 0 {
      // the array of |knots| - 1 entries allocated before the degree is looked at
      return Err(InvalidArrayLength);
    }
    if degree == 0 {
      var res := Indicators(knots);
      return Ok(res);
    }
    var sub := BasisFunctions(degree - 1, knots);
    if sub.Err? {
      return sub;
    }
    var subFuncs := sub.value;
    if |subFuncs| == 0 {
      return Err(InvalidArrayLength);
    }
    var len := |subFuncs| - 1;
    var res: seq<real -> real> := [];
    for i := 0 to len
      invariant |res| == i
      invariant forall j, u :: 0 <= j < i ==> res[j](u) == N(knots, degree, j, u)
    {
      var h := Blend(subFuncs[i], subFuncs[i + 1], knots[i], knots[i + 1], knots[i + degree], knots[i + degree + 1]);
      forall u
        ensures h(u) == N(knots, degree, i, u)
      {
        assert N(knots, degree, i, u)
          == Blended(knots[i], knots[i + 1], knots[i + degree], knots[i + degree + 1], u, subFuncs[i](u), subFuncs[i + 1](u));
      }
      res := res + [h];
    }
    return Ok(res);
  }

  /**
   * The closure blending f and g, functions i and i + 1 of the degree below, over the knots start,
   * stop1, stop2 and end: both terms, one of them, or the zero function, by the signs of the two
   * span widths.
   */
  method Blend(f: real -> real, g: real -> real, start: real, stop1: real, stop2: real, end: real) returns (h: real -> real)
    ensures forall x :: h(x) == Blended(start, stop1, stop2, end, x, f(x), g(x))
  {
    var diff1 := stop2 - start;
    var diff2 := end - stop1;
    if diff1 <= 0.0 && diff2 <= 0.0 {
      return (x: real) => 0.0;
    }
    if diff1 <= 0.0 {
      return (x: real) => (end - x) / diff2 * g(x);
    }
    if diff2 <= 0.0 {
      return (x: real) => (x - start) / diff1 * f(x);
    }
    return (x: real) => (end - x) / diff2 * g(x) + (x - start) / diff1 * f(x);
  }

  /** The degree-0 closures: the indicator of each half-open span between adjacent knots. */
  method Indicators(knots: seq<real>) returns (r: seq<real -> real>)
    requires |knots| >= 1
    ensures |r| == |knots| - 1
    ensures forall i, u :: 0 <= i < |r| ==> r[i](u) == N(knots, 0, i, u)
  {
    var len := |knots| - 1;
    var res := new (real -> real)[len](_ => (x: real) => 0.0);
    for i := 0 to len
      invariant forall j, u :: 0 <= j < i ==> res[j](u) == N(knots, 0, j, u)
    {
      var start, end := knots[i], knots[i + 1];
      res[i] := (x: real) => if x >= start && x < end then 1.0 else 0.0;
    }
    return res[..];
  }

  /** Outside [knots[i], knots[i+p+1]) basis function i of degree p vanishes. */
  lemma {:induction false} LocalSupport(knots: seq<real>, p: nat, i: nat, u: real)
    requires NonDecreasing(knots) && i + p + 1 < |knots|
    requires u < knots[i] || u >= knots[i + p + 1]
    ensures N(knots, p, i, u) == 0.0
    decreases p
  {
    if p > 0 {
      assert knots[i] <= knots[i + 1] && knots[i + p] <= knots[i + p + 1];
      LocalSupport(knots, p - 1, i, u);
      LocalSupport(knots, p - 1, i + 1, u);
      BlendedZero(knots[i], knots[i + 1], knots[i + p], knots[i + p + 1], u);
    }
  }

  /** Blending two zero values gives zero. */
  lemma BlendedZero(start: real, stop1: real, stop2: real, end: real, u: real)
    ensures Blended(start, stop1, stop2, end, u, 0.0, 0.0) == 0.0
  {
    Split(start, stop1, stop2, end, u, 0.0, 0.0);
    FallingZero(stop1, end, u);
    RisingZero(start, stop2, u);
  }

  /** The rising term of a zero value is zero. */
  lemma RisingZero(start: real, stop2: real, u: real)
    ensures Rising(start, stop2, u, 0.0) == 0.0
  {
  }

  /** The falling term of a zero value is zero. */
  lemma FallingZero(stop1: real, end: real, u: real)
    ensures Falling(stop1, end, u, 0.0) == 0.0
  {
  }

  /** A product of two non-negative reals is non-negative. */
  lemma MulNonNegative(a: real, b: real)
    requires a >= 0.0 && b >= 0.0
    ensures a * b >= 0.0
  {
  }

  /** The rising term is non-negative when its value is, and the value vanishes before the span starts. */
  lemma RisingNonNegative(start: real, stop2: real, u: real, f: real)
    requires f >= 0.0 && (u < start ==> f == 0.0)
    ensures Rising(start, stop2, u, f) >= 0.0
  {
    if stop2 - start > 0.0 {
      if u < start {
        RisingZero(start, stop2, u);
      } else {
        MulNonNegative((u - start) / (stop2 - start), f);
      }
    }
  }

  /** The falling term is non-negative when its value is, and the value vanishes once the span ends. */
  lemma FallingNonNegative(stop1: real, end: real, u: real, g: real)
    requires g >= 0.0 && (u >= end ==> g == 0.0)
    ensures Falling(stop1, end, u, g) >= 0.0
  {
    if end - stop1 > 0.0 {
      if u >= end {
        FallingZero(stop1, end, u);
      } else {
        MulNonNegative((end - u) / (end - stop1), g);
      }
    }
  }

  /** Basis functions over non-decreasing knots are never negative. */
  lemma {:induction false} NonNegative(knots: seq<real>, p: nat, i: nat, u: real)
    requires NonDecreasing(knots) && i + p + 1 < |knots|
    ensures N(knots, p, i, u) >= 0.0
    decreases p
  {
    if p > 0 {
      NonNegative(knots, p - 1, i, u);
      NonNegative(knots, p - 1, i + 1, u);
      if u < knots[i] {
        LocalSupport(knots, p - 1, i, u);
      }
      if u >= knots[i + p + 1] {
        LocalSupport(knots, p - 1, i + 1, u);
      }
      NonNegativeStep(knots[i], knots[i + 1], knots[i + p], knots[i + p + 1], u,
        N(knots, p - 1, i, u), N(knots, p - 1, i + 1, u));
    }
  }

  /** Non-negativity of a blend from non-negativity of the two values it blends. */
  lemma NonNegativeStep(start: real, stop1: real, stop2: real, end: real, u: real, f: real, g: real)
    requires f >= 0.0 && (u < start ==> f == 0.0)
    requires g >= 0.0 && (u >= end ==> g == 0.0)
    ensures Blended(start, stop1, stop2, end, u, f, g) >= 0.0
  {
    Split(start, stop1, stop2, end, u, f, g);
    RisingNonNegative(start, stop2, u, f);
    FallingNonNegative(stop1, end, u, g);
  }

  /** A repeated knot span: indicator i is zero everywhere when knots[i] == knots[i+1]. */
  lemma ZeroWidthIndicator(knots: seq<real>, i: nat, u: real)
    requires i + 1 < |knots| && knots[i] == knots[i + 1]
    ensures N(knots, 0, i, u) == 0.0
  {
  }

  /** At the last knot every basis function is zero: the half-open spans leave it out. */
  lemma VanishesAtLastKnot(knots: seq<real>, p: nat, i: nat)
    requires NonDecreasing(knots) && i + p + 1 < |knots|
    ensures N(knots, p, i, knots[|knots| - 1]) == 0.0
  {
    LocalSupport(knots, p, i, knots[|knots| - 1]);
  }

  /** Degree 1 over the knots [0, 0, 1, 1]: two functions, each 1/2 at u = 1/2. */
  lemma LinearExample()
    ensures BasisCount([0.0, 0.0, 1.0, 1.0], 1) == 2
    ensures N([0.0, 0.0, 1.0, 1.0], 1, 0, 0.5) == 0.5
    ensures N([0.0, 0.0, 1.0, 1.0], 1, 1, 0.5) == 0.5
  {
    var k := [0.0, 0.0, 1.0, 1.0];
    assert N(k, 0, 0, 0.5) == 0.0 && N(k, 0, 1, 0.5) == 1.0 && N(k, 0, 2, 0.5) == 0.0;
    assert N(k, 1, 0, 0.5) == Blended(0.0, 0.0, 1.0, 1.0, 0.5, 0.0, 1.0);
    assert N(k, 1, 1, 0.5) == Blended(0.0, 1.0, 1.0, 1.0, 0.5, 1.0, 0.0);
  }

  /** num / den, taken as 0 for a zero denominator: the textbook convention 0/0 = 0. */
  function Ratio(num: real, den: real): real
  {
    if den == 0.0 then 0.0 else num / den
  }

  /** The textbook Cox-de Boor recursion, with zero-width spans handled by Ratio. */
  function CoxDeBoor(knots: seq<real>, p: nat, i: nat, u: real): real
    requires i + p + 1 < |knots|
    decreases p
  {
    if p == 0 then
      if knots[i] <= u < knots[i + 1] then 1.0 else 0.0
    else
      TextbookBlend(knots[i], knots[i + 1], knots[i + p], knots[i + p + 1], u,
        CoxDeBoor(knots, p - 1, i, u), CoxDeBoor(knots, p - 1, i + 1, u))
  }

  /** The textbook blend: (u - start)/(stop2 - start) * f + (end - u)/(end - stop1) * g, with 0/0 = 0. */
  function TextbookBlend(start: real, stop1: real, stop2: real, end: real, u: real, f: real, g: real): real
  {
    Ratio(u - start, stop2 - start) * f + Ratio(end - u, end - stop1) * g
  }

  /** Over non-decreasing knots the four-way rule agrees with the textbook recursion. */
  lemma {:induction false} MatchesCoxDeBoor(knots: seq<real>, p: nat, i: nat, u: real)
    requires NonDecreasing(knots) && i + p + 1 < |knots|
    ensures N(knots, p, i, u) == CoxDeBoor(knots, p, i, u)
    decreases p
  {
    if p > 0 {
      MatchesCoxDeBoor(knots, p - 1, i, u);
      MatchesCoxDeBoor(knots, p - 1, i + 1, u);
      assert knots[i] <= knots[i + p] && knots[i + 1] <= knots[i + p + 1];
      RatioForm(knots[i], knots[i + 1], knots[i + p], knots[i + p + 1], u,
        N(knots, p - 1, i, u), N(knots, p - 1, i + 1, u));
    }
  }

  /** For spans of non-negative width the four-way rule is the textbook blend. */
  lemma RatioForm(start: real, stop1: real, stop2: real, end: real, u: real, f: real, g: real)
    requires start <= stop2 && stop1 <= end
    ensures Blended(start, stop1, stop2, end, u, f, g) == TextbookBlend(start, stop1, stop2, end, u, f, g)
  {
    Split(start, stop1, stop2, end, u, f, g);
    if stop2 - start == 0.0 {
      MulZero(Ratio(u - start, stop2 - start), f);
    }
    if end - stop1 == 0.0 {
      MulZero(Ratio(end - u, end - stop1), g);
    }
  }

  /** The sum of the first n basis functions of degree p at u. */
  function BasisSum(knots: seq<real>, p: nat, n: nat, u: real): real
    requires n + p + 1 <= |knots|
    decreases n
  {
    if n == 0 then 0.0 else BasisSum(knots, p, n - 1, u) + N(knots, p, n - 1, u)
  }

  /** The rising term of basis function i of degree p. */
  function LeftTerm(knots: seq<real>, p: nat, i: nat, u: real): real
    requires p > 0 && i + p + 1 < |knots|
  {
    Rising(knots[i], knots[i + p], u, N(knots, p - 1, i, u))
  }

  /** The falling term of basis function i of degree p. */
  function RightTerm(knots: seq<real>, p: nat, i: nat, u: real): real
    requires p > 0 && i + p + 1 < |knots|
  {
    Falling(knots[i + 1], knots[i + p + 1], u, N(knots, p - 1, i + 1, u))
  }

  /** Above degree 0 a basis function is its falling term plus its rising term. */
  lemma SplitN(knots: seq<real>, p: nat, i: nat, u: real)
    requires p > 0 && i + p + 1 < |knots|
    ensures N(knots, p, i, u) == RightTerm(knots, p, i, u) + LeftTerm(knots, p, i, u)
  {
    Split(knots[i], knots[i + 1], knots[i + p], knots[i + p + 1], u, N(knots, p - 1, i, u), N(knots, p - 1, i + 1, u));
  }

  /** The falling term of function j - 1 and the rising term of function j add up to function j below. */
  lemma Overlap(knots: seq<real>, p: nat, j: nat, u: real)
    requires NonDecreasing(knots) && p > 0 && 1 <= j && j + p + 1 < |knots|
    ensures RightTerm(knots, p, j - 1, u) + LeftTerm(knots, p, j, u) == N(knots, p - 1, j, u)
  {
    if knots[j + p] - knots[j] <= 0.0 {
      LocalSupport(knots, p - 1, j, u);
    }
    Complementary(knots[j], knots[j + p], u, N(knots, p - 1, j, u));
  }

  /** Over one span the falling and rising terms of the same value add up to that value. */
  lemma Complementary(a: real, b: real, u: real, v: real)
    requires b - a <= 0.0 ==> v == 0.0
    ensures Falling(a, b, u, v) + Rising(a, b, u, v) == v
  {
    var d := b - a;
    if d > 0.0 {
      calc {
        Falling(a, b, u, v) + Rising(a, b, u, v);
        == (b - u) / d * v + (u - a) / d * v;
        == ((b - u) + (u - a)) / d * v;
        == d / d * v;
        == { assert d / d == 1.0; }
        v;
      }
    } else {
      FallingZero(a, b, u);
      RisingZero(a, b, u);
    }
  }

  /** The degree-0 indicators of the first n spans sum to 1 exactly below knots[n], from knots[0] on. */
  lemma {:induction false} IndicatorSum(knots: seq<real>, n: nat, u: real)
    requires NonDecreasing(knots) && n + 1 <= |knots| && knots[0] <= u
    ensures BasisSum(knots, 0, n, u) == if u < knots[n] then 1.0 else 0.0
    decreases n
  {
    if n > 0 {
      IndicatorSum(knots, n - 1, u);
    }
  }

  /** Summing degree-p functions telescopes into the degree-(p-1) sum plus two boundary terms. */
  lemma {:induction false} Telescope(knots: seq<real>, p: nat, j: nat, u: real)
    requires NonDecreasing(knots) && p > 0 && 1 <= j && j + p + 1 <= |knots|
    ensures BasisSum(knots, p, j, u)
      == BasisSum(knots, p - 1, j, u) - N(knots, p - 1, 0, u) + LeftTerm(knots, p, 0, u) + RightTerm(knots, p, j - 1, u)
    decreases j
  {
    SplitN(knots, p, j - 1, u);
    assert BasisSum(knots, p, j, u) == BasisSum(knots, p, j - 1, u) + N(knots, p, j - 1, u);
    assert BasisSum(knots, p - 1, j, u) == BasisSum(knots, p - 1, j - 1, u) + N(knots, p - 1, j - 1, u);
    if j > 1 {
      Telescope(knots, p, j - 1, u);
      Overlap(knots, p, j - 1, u);
    }
  }

  /** Partition of unity: inside [knots[p], knots[|knots|-p-1]) the basis functions of degree p sum to 1. */
  lemma {:induction false} PartitionOfUnity(knots: seq<real>, p: nat, u: real)
    requires NonDecreasing(knots) && p < |knots|
    requires knots[p] <= u < knots[|knots| - p - 1]
    ensures BasisCount(knots, p) >= 1
    ensures BasisSum(knots, p, BasisCount(knots, p), u) == 1.0
    decreases p
  {
    var n := BasisCount(knots, p);
    assert n > p;
    if p == 0 {
      IndicatorSum(knots, n, u);
    } else {
      assert knots[p - 1] <= knots[p] && knots[n] <= knots[n + 1];
      PartitionOfUnity(knots, p - 1, u);
      PartitionStep(knots, p, u);
    }
  }

  /** The degree-p sum equals the degree-(p-1) sum inside the valid range: the boundary terms vanish there. */
  lemma PartitionStep(knots: seq<real>, p: nat, u: real)
    requires NonDecreasing(knots) && 0 < p && 2 * p + 1 < |knots|
    requires knots[p] <= u < knots[|knots| - p - 1]
    ensures BasisSum(knots, p, BasisCount(knots, p), u) == BasisSum(knots, p - 1, BasisCount(knots, p - 1), u)
  {
    var n := BasisCount(knots, p);
    Telescope(knots, p, n, u);
    LocalSupport(knots, p - 1, 0, u);
    RisingZero(knots[0], knots[p], u);
    LocalSupport(knots, p - 1, n, u);
    FallingZero(knots[n], knots[n + p], u);
    assert BasisSum(knots, p - 1, n + 1, u) == BasisSum(knots, p - 1, n, u) + N(knots, p - 1, n, u);
  }

  /** Anything times zero is zero. */
  lemma MulZero(a: real, b: real)
    requires a == 0.0
    ensures a * b == 0.0
  {
  }
}
