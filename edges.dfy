/** The bookkeeping of `iterateEdges` in bricks.js: the corner cut of each
    edge, the vertices checked for an acute-corner miter, the miter
    iteration count, and the choice between an edge's cut points and their
    staggered midpoints, which alternates from edge to edge.

    The solids `iterateEdges` builds from these (`layOnLine`,
    `zeroedCuboid`, the extrusion and the subtraction) are not modelled. */
module Edges {
  import opened Geometry
  import opened Coursing

  // ---------------------------------------------------------------------
  // Corner cuts

  /** One pass of the first loop for the edge from `a` to `b`, whose
      offset vertices are `c` and `d`: trim the edge's start to the
      projection of `c`, then the end of that to the projection of `d`.
      The outer None is the TypeError the source raises when it
      destructures a missing offset vertex (`false`) or the `-1` of a first
      trim of a too-short edge; the inner None is the `-1` the second trim
      returns. */
  function CornerCut(a: Point, b: Point, c: Option<Point>, d: Option<Point>): Option<Option<Segment>> {
    if c.None? then None
    else
      var tmp := ClosestPointEx(Segment(a, b), c.value, true);
      if tmp.None? || d.None? then None
      else Some(ClosestPointEx(tmp.value, d.value, false))
  }

  /** The corner cut of edge `i`. */
  function CutOfEdge(points: seq<Point>, offsetPoints: seq<Option<Point>>, i: int): Option<Option<Segment>>
    requires |offsetPoints| == |points| && 0 <= i < EdgeCount(points)
  {
    CornerCut(points[i], points[i + 1], offsetPoints[i], offsetPoints[i + 1])
  }

  /** What the first loop leaves in `cornerCuts`, or None when it throws. */
  function CornerCutsOf(points: seq<Point>, offsetPoints: seq<Option<Point>>): Option<seq<Option<Segment>>>
    requires |offsetPoints| == |points|
  {
    if forall i :: 0 <= i < EdgeCount(points) ==> CutOfEdge(points, offsetPoints, i).Some? then
      Some(seq(EdgeCount(points), i requires 0 <= i < EdgeCount(points) => CutOfEdge(points, offsetPoints, i).value))
    else None
  }

  /** The first loop of `iterateEdges`: one corner cut per edge. */
  method CornerCuts(points: seq<Point>, offsetPoints: seq<Option<Point>>)
    returns (cornerCuts: Option<seq<Option<Segment>>>)
    requires |offsetPoints| == |points|
    ensures cornerCuts == CornerCutsOf(points, offsetPoints)
  {
    var cuts := [];
    var i := 0;
    while i < |points| - 1
      invariant 0 <= i <= EdgeCount(points)
      invariant forall t :: 0 <= t < i ==> CutOfEdge(points, offsetPoints, t).Some?
      invariant |cuts| == i
      invariant forall t :: 0 <= t < i ==> cuts[t] == CutOfEdge(points, offsetPoints, t).value
    {
      var a, b := points[i], points[i + 1];
      var c, d := offsetPoints[i], offsetPoints[i + 1];
      if c.None? {
        assert CutOfEdge(points, offsetPoints, i).None?;
        return None;
      }
      var tmp := ClosestPointEx(Segment(a, b), c.value, true);
      if tmp.None? || d.None? {
        assert CutOfEdge(points, offsetPoints, i).None?;
        return None;
      }
      cuts := cuts + [ClosestPointEx(tmp.value, d.value, false)];
      i := i + 1;
    }
    assert cuts == CornerCutsOf(points, offsetPoints).value;
    return Some(cuts);
  }

  /** The first loop gives exactly one entry per edge, entry `i` being the
      corner cut of edge `i`; it throws exactly when some edge has a
      missing offset vertex at either end or is shorter than `EPS`. */
  lemma CornerCutsCount(points: seq<Point>, offsetPoints: seq<Option<Point>>)
    requires |offsetPoints| == |points|
    ensures CornerCutsOf(points, offsetPoints).Some? <==>
      forall i :: 0 <= i < EdgeCount(points) ==> Cuttable(points, offsetPoints, i)
    ensures CornerCutsOf(points, offsetPoints).Some? ==>
      |CornerCutsOf(points, offsetPoints).value| == EdgeCount(points)
  {
    forall i | 0 <= i < EdgeCount(points)
      ensures CutOfEdge(points, offsetPoints, i).Some? <==> Cuttable(points, offsetPoints, i)
    {
      CornerCutThrows(points[i], points[i + 1], offsetPoints[i], offsetPoints[i + 1]);
    }
  }

  /** Edge `i` has both offset vertices and is at least `EPS` long. */
  predicate Cuttable(points: seq<Point>, offsetPoints: seq<Option<Point>>, i: int)
    requires |offsetPoints| == |points| && 0 <= i < EdgeCount(points)
  {
    offsetPoints[i].Some? && offsetPoints[i + 1].Some? && SqDist(points[i], points[i + 1]) >= EPS_SQ
  }

  /** A corner cut throws exactly when an offset vertex is missing or the
      edge is shorter than `EPS`. */
  lemma CornerCutThrows(a: Point, b: Point, c: Option<Point>, d: Option<Point>)
    ensures CornerCut(a, b, c, d).None? <==> c.None? || d.None? || SqDist(a, b) < EPS_SQ
  {
  }

  /** A corner cut keeps its start on the edge: the first trim keeps the
      edge's end and moves its start onto the edge, and the second trim
      keeps that start. */
  lemma CornerCutStart(a: Point, b: Point, c: Option<Point>, d: Option<Point>)
    requires CornerCut(a, b, c, d).Some? && CornerCut(a, b, c, d).value.Some?
    ensures OnSegment(CornerCut(a, b, c, d).value.value.start, Line(a, b))
  {
    ClosestOnSegment(Segment(a, b), c.value, true);
  }

  /** A corner cut keeps its end on the edge: the end is either `b`, or the
      foot of the second trim, which lies on the tail of the edge left by
      the first trim and so on the edge itself. */
  lemma CornerCutEnd(a: Point, b: Point, c: Option<Point>, d: Option<Point>)
    requires CornerCut(a, b, c, d).Some? && CornerCut(a, b, c, d).value.Some?
    ensures OnSegment(CornerCut(a, b, c, d).value.value.end, Line(a, b))
  {
    var s := Segment(a, b);
    var tmp := ClosestPointEx(s, c.value, true).value;
    var r := ClosestPointEx(tmp, d.value, false).value;
    assert r == CornerCut(a, b, c, d).value.value;
    if r.end == b {
      EndsOnSegment(Line(a, b));
    } else if tmp == s {
      ClosestOnSegment(s, d.value, false);
    } else {
      assert EPS <= ProjectionParam(s, c.value) <= 1.0;
      assert tmp == Segment(Foot(s, c.value), b) by { ClosestTrimmed(s, c.value, true); }
      TrimmedTail(Line(a, b), ProjectionParam(s, c.value), tmp, d.value);
    }
  }

  /** The second trim of a corner cut: when it moves the end of the tail
      `tail` that the first trim left of the edge `l`, the new end lies on
      `l`. */
  lemma TrimmedTail(l: Line, u1: real, tail: Segment, p: Point)
    requires l.p1 != l.p2 && 0.0 <= u1 <= 1.0
    requires tail == Segment(PointAt(l, u1), l.p2)
    requires ClosestPointEx(tail, p, false).Some? && ClosestPointEx(tail, p, false).value.end != l.p2
    ensures OnSegment(ClosestPointEx(tail, p, false).value.end, l)
  {
    var u2 := ProjectionParam(tail, p);
    ClosestTrimmed(tail, p, false);
    TailPointAt(l, u1, u2);
    AlongSegment(l, u1 + u2 * (1.0 - u1));
  }

  // ---------------------------------------------------------------------
  // Acute corners

  /** Vertex `i` is checked for a miter: it is interior (`i > 0` and
      `i < points.length - 1`) and the corner there is sharp. `sharp(p0,
      p1, p2)` stands for `getAngle(p0, p1, p2) < 90`. */
  predicate Mitred(points: seq<Point>, sharp: (Point, Point, Point) -> bool, i: int) {
    0 < i && i < |points| - 1 && sharp(points[i + 1], points[i], points[i - 1])
  }

  /** The vertices among the first `m` edges that get a miter, in order. */
  function MitredUpTo(points: seq<Point>, sharp: (Point, Point, Point) -> bool, m: nat): seq<int> {
    if m == 0 then []
    else MitredUpTo(points, sharp, m - 1) + (if Mitred(points, sharp, m - 1) then [m - 1] else [])
  }

  /** The second loop of `iterateEdges`, reduced to the vertices for which
      it calls `acute`. */
  method MiterCorners(points: seq<Point>, sharp: (Point, Point, Point) -> bool) returns (mitred: seq<int>)
    ensures mitred == MitredUpTo(points, sharp, EdgeCount(points))
  {
    mitred := [];
    var i := 0;
    while i < |points| - 1
      invariant 0 <= i <= EdgeCount(points)
      invariant mitred == MitredUpTo(points, sharp, i)
    {
      if i > 0 && i < |points| - 1 {
        if sharp(points[i + 1], points[i], points[i - 1]) {
          mitred := mitred + [i];
        }
      }
      i := i + 1;
    }
  }

  /** A vertex gets a miter exactly when it is an interior vertex with a
      sharp corner: the first and the last vertex never do, so the corner
      closing the polygon is never mitred. The vertices come in increasing
      order. */
  lemma {:induction false} MitredExactly(points: seq<Point>, sharp: (Point, Point, Point) -> bool, m: nat)
    ensures forall x :: x in MitredUpTo(points, sharp, m) <==> 0 <= x < m && Mitred(points, sharp, x)
    ensures forall x :: x in MitredUpTo(points, sharp, m) ==> 1 <= x <= |points| - 2
    ensures forall s, t :: 0 <= s < t < |MitredUpTo(points, sharp, m)| ==>
      MitredUpTo(points, sharp, m)[s] < MitredUpTo(points, sharp, m)[t]
  {
    if m > 0 {
      MitredExactly(points, sharp, m - 1);
      var prev := MitredUpTo(points, sharp, m - 1);
      if Mitred(points, sharp, m - 1) {
        forall s, t | 0 <= s < t < |prev| + 1
          ensures MitredUpTo(points, sharp, m)[s] < MitredUpTo(points, sharp, m)[t]
        {
          if t == |prev| {
            assert prev[s] in prev;
          }
        }
      }
    }
  }

  /** `Math.ceil(Math.min(edgeLenA, edgeLenB) / brickLength) - 1`, the
      number of mortar joints `acute` cuts along a sharp corner: the
      largest count of whole bricks that stays strictly shorter than the
      shorter edge. */
  function MiterIterations(edgeLenA: real, edgeLenB: real, brickLength: real): (it: int)
    requires brickLength > 0.0
    ensures var m := if edgeLenA < edgeLenB then edgeLenA else edgeLenB;
      it as real * brickLength < m <= (it + 1) as real * brickLength
  {
    var m := if edgeLenA < edgeLenB then edgeLenA else edgeLenB;
    var q := m / brickLength;
    var ceil := -((-q).Floor);
    CeilBounds(m, brickLength, q, ceil);
    ceil - 1
  }

  /** `c`, the ceiling of `q = m / b`, bounds `m` between `(c - 1) * b`
      and `c * b`. */
  lemma CeilBounds(m: real, b: real, q: real, c: int)
    requires b > 0.0 && q == m / b && c == -((-q).Floor)
    ensures (c - 1) as real * b < m <= c as real * b
  {
    assert q * b == m;
    assert (c - 1) as real < q <= c as real;
    var below := Mul(q - (c - 1) as real, b);
    var above := Mul(c as real - q, b);
    assert below == q * b - (c - 1) as real * b;
    assert above == c as real * b - q * b;
  }

  // ---------------------------------------------------------------------
  // Staggering the courses

  /** The edge parity rule: with `winding` set, odd edges are laid on the
      midpoints of their cuts (`traceBetween(cp)`) and even edges on the
      cuts themselves; with `winding` clear the other way round. */
  function UsesBetween(winding: bool, i: nat): bool {
    if winding then i % 2 == 1 else i % 2 == 0
  }

  /** Adjacent edges always make opposite choices, and flipping `winding`
      flips every choice, so consecutive layers alternate too. */
  lemma {:induction false} ParityAlternates(winding: bool, i: nat)
    ensures UsesBetween(winding, i + 1) == !UsesBetween(winding, i)
    ensures UsesBetween(!winding, i) == !UsesBetween(winding, i)
  {
    if i % 2 == 0 {
      assert (i + 1) % 2 == 1;
    } else {
      assert (i + 1) % 2 == 0;
    }
  }

  /** The points the third loop lays bricks on for edge `i` with corner
      cut `cut`: the cut points of the cut's span, from its start toward
      its end, or their midpoints. */
  function EdgeCourse(cut: Segment, i: nat, winding: bool, info: BrickInfo, sqrt: real -> real): seq<Point>
    requires IsSqrt(sqrt) && info.brickLength > 0.0
  {
    var cp := CutPointsOf(cut.end, cut.start, info, sqrt);
    if UsesBetween(winding, i) then Between(cp) else cp
  }

  /** The courses of all edges, or None when a corner cut is the `-1` of
      a too-short trim, whose indexing throws in the source. */
  function CoursesOf(cornerCuts: seq<Option<Segment>>, winding: bool, info: BrickInfo, sqrt: real -> real): Option<seq<seq<Point>>>
    requires IsSqrt(sqrt) && info.brickLength > 0.0
  {
    if forall i :: 0 <= i < |cornerCuts| ==> cornerCuts[i].Some? then
      Some(seq(|cornerCuts|, i requires 0 <= i < |cornerCuts| => EdgeCourse(cornerCuts[i].value, i, winding, info, sqrt)))
    else None
  }

  /** The third loop of `iterateEdges`, reduced to the points each edge's
      bricks are laid on: `emitCutPoints` from the cut's start to its end,
      then `traceBetween` of those on the edges the parity rule picks. */
  method EdgeCourses(cornerCuts: seq<Option<Segment>>, winding: bool, brickInfo: BrickInfo, sqrt: real -> real)
    returns (courses: Option<seq<seq<Point>>>)
    requires IsSqrt(sqrt) && brickInfo.brickLength > 0.0
    ensures courses == CoursesOf(cornerCuts, winding, brickInfo, sqrt)
  {
    var laid := [];
    var i := 0;
    while i < |cornerCuts|
      invariant 0 <= i <= |cornerCuts|
      invariant forall t :: 0 <= t < i ==> cornerCuts[t].Some?
      invariant |laid| == i
      invariant forall t :: 0 <= t < i ==> laid[t] == EdgeCourse(cornerCuts[t].value, t, winding, brickInfo, sqrt)
    {
      var p := cornerCuts[i];
      if p.None? {
        return None;
      }
      var points := LayEdge(p.value, i, winding, brickInfo, sqrt);
      laid := laid + [points];
      i := i + 1;
    }
    assert laid == CoursesOf(cornerCuts, winding, brickInfo, sqrt).value;
    return Some(laid);
  }

  /** The body of the third loop for edge `i` with corner cut `cut`:
      `emitCutPoints` from the cut's end back to its start, and
      `traceBetween` of those when the parity rule says so. */
  method LayEdge(cut: Segment, i: nat, winding: bool, brickInfo: BrickInfo, sqrt: real -> real)
    returns (points: seq<Point>)
    requires IsSqrt(sqrt) && brickInfo.brickLength > 0.0
    ensures points == EdgeCourse(cut, i, winding, brickInfo, sqrt)
  {
    var start, end := cut.start, cut.end;
    var cp := EmitCutPoints(end, start, brickInfo, sqrt);
    if UsesBetween(winding, i) {
      points := TraceBetween(cp);
    } else {
      points := cp;
    }
  }

  /** Every course is symmetric about the middle of its edge's span, the
      staggered ones included. */
  lemma EdgeCourseMirrored(cut: Segment, i: nat, winding: bool, info: BrickInfo, sqrt: real -> real)
    requires IsSqrt(sqrt) && info.brickLength > 0.0
    ensures MirroredAbout(EdgeCourse(cut, i, winding, info, sqrt), Add(cut.end, cut.start))
  {
    var cp := CutPointsOf(cut.end, cut.start, info, sqrt);
    match LayoutOf(cut.end, cut.start, info, sqrt)
    case None =>
      assert cp == [];
    case Some(l) =>
      CourseAligned(l, sqrt);
      CutsMirrored(l);
    BetweenMirrored(cp, Add(cut.end, cut.start));
  }

  /** A staggered course has one point fewer than the cut points it is
      taken from, and none when the span gets no cuts. */
  lemma EdgeCourseLength(cut: Segment, i: nat, winding: bool, info: BrickInfo, sqrt: real -> real)
    requires IsSqrt(sqrt) && info.brickLength > 0.0
    ensures var n := |CutPointsOf(cut.end, cut.start, info, sqrt)|;
      |EdgeCourse(cut, i, winding, info, sqrt)| ==
        if UsesBetween(winding, i) && n > 0 then n - 1 else n
  {
  }
}
