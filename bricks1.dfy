/** The edge walk of bricks1.js: for each edge but the closing one, the four
    consecutive vertices `traceBounds` receives. Its `intersect` is the
    same computation as the one in bricks.js, modelled once as
    `Geometry.Intersect`. */
module Bricks1 {
  import opened Geometry

  /** `points[k]`, or None for the `undefined` JavaScript yields outside
      the array. */
  function At(points: seq<Point>, k: int): (r: Option<Point>)
    ensures r.Some? <==> 0 <= k < |points|
    ensures r.Some? ==> r.value == points[k]
  {
    if 0 <= k < |points| then Some(points[k]) else None
  }

  /** The arguments `prev`, `curr`, `next` and `finl` of one `traceBounds`
      call. */
  datatype Neighbours = Neighbours(prev: Option<Point>, curr: Option<Point>, next: Option<Point>, finl: Option<Point>)

  /** The vertices `iterateEdges` picks for edge `i`: the first edge wraps
      back to the last vertex for `prev`, and an edge near the end wraps
      forward to the first vertex for `finl`. */
  function NeighboursOf(points: seq<Point>, i: int): Neighbours
    requires 0 <= i < |points| - 1
  {
    var len := |points|;
    var prev := if i == 0 then At(points, len - 1) else At(points, i - 1);
    var curr := if i == 0 then At(points, 0) else At(points, i);
    var next := if i == 0 then At(points, 1) else At(points, i + 1);
    var finl := if i == 0 then At(points, 2) else (if i <= len - 3 then At(points, i + 2) else At(points, 0));
    Neighbours(prev, curr, next, finl)
  }

  /** `iterateEdges` of bricks1.js, reduced to the arguments of its
      `traceBounds` calls, one per pushed shape. */
  method IterateEdges(points: seq<Point>) returns (shapes: seq<Neighbours>)
    ensures |shapes| == EdgeCount(points)
    ensures forall i :: 0 <= i < |shapes| ==> shapes[i] == NeighboursOf(points, i)
  {
    shapes := [];
    var len := |points|;
    var i := 0;
    while i < len - 1
      invariant 0 <= i <= EdgeCount(points)
      invariant |shapes| == i
      invariant forall t :: 0 <= t < i ==> shapes[t] == NeighboursOf(points, t)
    {
      var prev := if i == 0 then At(points, len - 1) else At(points, i - 1);
      var curr := if i == 0 then At(points, 0) else At(points, i);
      var next := if i == 0 then At(points, 1) else At(points, i + 1);
      var finl := if i == 0 then At(points, 2) else (if i <= len - 3 then At(points, i + 2) else At(points, 0));
      shapes := shapes + [Neighbours(prev, curr, next, finl)];
      i := i + 1;
    }
  }

  /** For a polygon of at least three vertices every pick is in range:
      edge `i` sees the vertices at `i - 1`, `i`, `i + 1` and `i + 2`,
      counted modulo the number of vertices, so edge `i` always runs from
      `points[i]` to `points[i + 1]` and the closing edge is never among
      them. */
  lemma NeighbourIndices(points: seq<Point>, i: int)
    requires |points| >= 3 && 0 <= i < |points| - 1
    ensures var len := |points|;
      NeighboursOf(points, i) ==
        Neighbours(Some(points[(i - 1) % len]), Some(points[i]), Some(points[i + 1]), Some(points[(i + 2) % len]))
  {
    var len := |points|;
    if i == 0 {
      assert (i - 1) % len == len - 1;
    } else {
      assert (i - 1) % len == i - 1;
    }
    if i <= len - 3 {
      assert (i + 2) % len == i + 2;
    } else {
      assert (i + 2) % len == 0;
    }
  }

  /** A two-vertex polygon has one edge, and its `finl` is `undefined`. */
  lemma TwoVertices(points: seq<Point>)
    requires |points| == 2
    ensures NeighboursOf(points, 0) == Neighbours(Some(points[1]), Some(points[0]), Some(points[1]), None)
  {
  }
}
