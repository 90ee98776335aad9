/**
 * The drawing surface the curve code writes to: a path built from one move and a run of lines,
 * and the list of paths stroked so far. It stands for the browser canvas, which is external.
 */
module Canvas {
  import opened VectorOps

  /** One path-building call made on the surface. */
  datatype Command = MoveTo(p: Vector) | LineTo(p: Vector)

  /** The calls that draw a polyline: a move to its first point, then a line to each later point. */
  function Trace(points: seq<Vector>): (cmds: seq<Command>)
    decreases |points|
  {
    if |points| == 0 then []
    else if |points| == 1 then [Command.MoveTo(points[0])]
    else Trace(points[..|points| - 1]) + [Command.LineTo(points[|points| - 1])]
  }

  /** A polyline of n points takes n calls: the move to the first point, then a line to each later one. */
  lemma {:induction false} TraceAt(points: seq<Vector>)
    ensures |Trace(points)| == |points|
    ensures |points| >= 1 ==> Trace(points)[0] == Command.MoveTo(points[0])
    ensures forall k :: 1 <= k < |points| ==> Trace(points)[k] == Command.LineTo(points[k])
    decreases |points|
  {
    if |points| > 1 {
      var init := points[..|points| - 1];
      TraceAt(init);
      assert forall k :: 0 <= k < |init| ==> init[k] == points[k];
    }
  }

  class Surface {
    /** The calls made since the last beginPath. */
    var path: seq<Command>
    /** Every path stroked so far, oldest first. */
    var strokes: seq<seq<Command>>

    constructor ()
      ensures path == [] && strokes == []
    {
      path, strokes := [], [];
    }

    method BeginPath()
      modifies this
      ensures path == [] && strokes == old(strokes)
    {
      path := [];
    }

    method MoveTo(p: Vector)
      modifies this
      ensures path == old(path) + [Command.MoveTo(p)] && strokes == old(strokes)
    {
      path := path + [Command.MoveTo(p)];
    }

    method LineTo(p: Vector)
      modifies this
      ensures path == old(path) + [Command.LineTo(p)] && strokes == old(strokes)
    {
      path := path + [Command.LineTo(p)];
    }

    method Stroke()
      modifies this
      ensures path == old(path) && strokes == old(strokes) + [path]
    {
      strokes := strokes + [path];
    }
  }
}
