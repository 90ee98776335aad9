/** Dimension-agnostic vector interpolation and homogeneous projection. */
module VectorOps {
  import opened Errors

  /** A point, plain or homogeneous (the last component is then the weight). */
  type Vector = seq<real>

  /** The component-wise blend (1 - pos) * a + pos * b of two vectors of one dimension. */
  function Interpolate(a: Vector, b: Vector, pos: real): (r: Vector)
    requires |a| == |b|
    ensures |r| == |a|
  {
    seq(|a|, i requires 0 <= i < |a| => (1.0 - pos) * a[i] + pos * b[i])
  }

  /**
   * Linear interpolation between two vectors, for any real position (extrapolation included).
   * Vectors of different dimension are rejected.
   */
  method Lerp(a: Vector, b: Vector, pos: real) returns (r: Result<Vector>)
    ensures r.Err? <==> |a| != |b|
    ensures r.Err? ==> r.error == DimensionMismatch
    ensures r.Ok? ==> |r.value| == |a|
    ensures r.Ok? ==> forall i :: 0 <= i < |a| ==> r.value[i] == (1.0 - pos) * a[i] + pos * b[i]
    ensures r.Ok? ==> r.value == Interpolate(a, b, pos)
  {
    var dimensions := |a|;
    if dimensions != |b| {
      return Err(DimensionMismatch);
    }
    var res := new real[dimensions];
    var rest := 1.0 - pos;
    for i := 0 to dimensions
      invariant forall j :: 0 <= j < i ==> res[j] == rest * a[j] + pos * b[j]
    {
      res[i] := rest * a[i] + pos * b[i];
    }
    assert forall j :: 0 <= j < dimensions ==> res[..][j] == Interpolate(a, b, pos)[j];
    return Ok(res[..]);
  }

  /** At position 0 the interpolation is its first argument. */
  lemma InterpolateAtZero(a: Vector, b: Vector)
    requires |a| == |b|
    ensures Interpolate(a, b, 0.0) == a
  {
  }

  /** At position 1 the interpolation is its second argument. */
  lemma InterpolateAtOne(a: Vector, b: Vector)
    requires |a| == |b|
    ensures Interpolate(a, b, 1.0) == b
  {
  }

  /** Interpolating from b to a at 1 - pos gives the same vector as from a to b at pos. */
  lemma InterpolateSymmetric(a: Vector, b: Vector, pos: real)
    requires |a| == |b|
    ensures Interpolate(b, a, 1.0 - pos) == Interpolate(a, b, pos)
  {
  }

  /** A point that can be dehomogenized: at least two components, a nonzero weight. */
  predicate HasWeight(p: Vector)
  {
    |p| >= 2 && p[|p| - 1] != 0.0
  }

  /** The weight (last component) of a homogeneous point. */
  function Weight(p: Vector): real
    requires |p| >= 1
  {
    p[|p| - 1]
  }

  /** The Cartesian point of a homogeneous one: every other component divided by the weight. */
  function Project(p: Vector): (r: Vector)
    requires HasWeight(p)
    ensures |r| == |p| - 1
  {
    seq(|p| - 1, i requires 0 <= i < |p| - 1 => p[i] / Weight(p))
  }

  /** The homogeneous point with Cartesian part v and weight w: each component scaled by w, then w. */
  function Homogenize(v: Vector, w: real): (r: Vector)
    ensures |r| == |v| + 1
  {
    seq(|v|, i requires 0 <= i < |v| => v[i] * w) + [w]
  }

  /** Every component of a vector multiplied by s. */
  function Scale(p: Vector, s: real): (r: Vector)
    ensures |r| == |p|
  {
    seq(|p|, i requires 0 <= i < |p| => s * p[i])
  }

  /**
   * Converts a homogeneous point to a Cartesian one. A point with fewer than two components is
   * rejected; a zero weight is the caller's responsibility.
   */
  method Dehomogenize(point: Vector) returns (r: Result<Vector>)
    requires |point| >= 2 ==> point[|point| - 1] != 0.0
    ensures r.Err? <==> |point| < 2
    ensures r.Err? ==> r.error == InvalidInput
    ensures r.Ok? ==> HasWeight(point) && r.value == Project(point)
  {
    if |point| < 2 {
      return Err(InvalidInput);
    }
    var dimensions := |point| - 1;
    var w := point[dimensions];
    var res := new real[dimensions];
    for i := 0 to dimensions
      invariant forall j :: 0 <= j < i ==> res[j] == point[j] / w
    {
      res[i] := point[i] / w;
    }
    assert Weight(point) == w;
    assert forall j :: 0 <= j < dimensions ==> res[..][j] == Project(point)[j];
    return Ok(res[..]);
  }

  /** Dehomogenizing a homogenized point gives back its Cartesian part. */
  lemma {:induction false} ProjectHomogenize(v: Vector, w: real)
    requires w != 0.0
    ensures HasWeight(Homogenize(v, w)) <==> |v| >= 1
    ensures |v| >= 1 ==> Project(Homogenize(v, w)) == v
  {
    if |v| >= 1 {
      var h := Homogenize(v, w);
      forall i | 0 <= i < |v|
        ensures Project(h)[i] == v[i]
      {
        assert h[i] == v[i] * w && Weight(h) == w;
        calc {
          Project(h)[i];
          == h[i] / Weight(h);
          == (v[i] * w) / w;
          == v[i];
        }
      }
    }
  }

  /** Homogenizing the projection of a point with its own weight gives back the point. */
  lemma {:induction false} HomogenizeProject(p: Vector)
    requires HasWeight(p)
    ensures Homogenize(Project(p), Weight(p)) == p
  {
    var h := Homogenize(Project(p), Weight(p));
    forall i | 0 <= i < |p|
      ensures h[i] == p[i]
    {
      if i < |p| - 1 {
        calc {
          h[i];
          == (p[i] / Weight(p)) * Weight(p);
          == p[i];
        }
      }
    }
  }

  /** The two-dimensional round trip: [x*w, y*w, w] dehomogenizes to [x, y]. */
  lemma ProjectPlanarRoundTrip(x: real, y: real, w: real)
    requires w != 0.0
    ensures HasWeight([x * w, y * w, w])
    ensures Project([x * w, y * w, w]) == [x, y]
  {
    var h := Homogenize([x, y], w);
    assert h[0] == x * w && h[1] == y * w && h[2] == w;
    assert h == [x * w, y * w, w];
    ProjectHomogenize([x, y], w);
  }

  /** Scaling a homogeneous point by a nonzero factor does not move its Cartesian point. */
  lemma {:induction false} ProjectScale(p: Vector, s: real)
    requires HasWeight(p) && s != 0.0
    ensures HasWeight(Scale(p, s))
    ensures Project(Scale(p, s)) == Project(p)
  {
    var q := Scale(p, s);
    assert Weight(q) == s * Weight(p);
    forall i | 0 <= i < |p| - 1
      ensures Project(q)[i] == Project(p)[i]
    {
      calc {
        Project(q)[i];
        == (s * p[i]) / (s * Weight(p));
        == p[i] / Weight(p);
      }
    }
  }
}
