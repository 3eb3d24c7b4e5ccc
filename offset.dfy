/** `traceOffset`: the polygon inset by `offset` from a closed polygon.
    Each vertex of the result is the crossing of the two edges meeting at
    the input vertex, each shifted sideways by `offset` along its normal. */
module Offset {
  import opened Geometry

  /** The index before `j` among `n` vertices, the last one for the
      first. */
  function PrevIndex(j: int, n: int): (i: int)
    requires 0 <= j < n
    ensures 0 <= i < n && i == (j - 1) % n
  {
    var i := j - 1;
    if i < 0 then i + n else i
  }

  /** The index after `j` among `n` vertices, the first one for the
      last. */
  function NextIndex(j: int, n: int): (k: int)
    requires 0 <= j < n
    ensures 0 <= k < n && k == if j == n - 1 then 0 else j + 1
  {
    (j + 1) % n
  }

  /** Stepping back and then forward returns to the same vertex. */
  lemma NextOfPrev(j: int, n: int)
    requires 0 <= j < n
    ensures NextIndex(PrevIndex(j, n), n) == j
  {
  }

  /** No edge of the closed polygon, the closing edge included, has
      coincident ends. The source's `normal` divides by the edge length, so
      a zero-length edge turns its offset vertices into NaN. */
  predicate ProperPolygon(points: seq<Point>) {
    forall j :: 0 <= j < |points| ==> points[j] != points[NextIndex(j, |points|)]
  }

  /** The edge before vertex `j` has distinct ends. */
  lemma PrevEdgeProper(points: seq<Point>, j: int)
    requires ProperPolygon(points) && 0 <= j < |points|
    ensures points[PrevIndex(j, |points|)] != points[j]
  {
    NextOfPrev(j, |points|);
  }

  /** The line through the edge from `p` to `q`, moved sideways by
      `normal(q - p, offset)`. */
  function OffsetEdge(p: Point, q: Point, offset: real, sqrt: real -> real): Line
    requires IsSqrt(sqrt) && p != q
  {
    var n := Normal(Sub(q, p), offset, sqrt);
    Line(Add(p, n), Add(q, n))
  }

  /** Entry `j` of `traceOffset`: the crossing of the offset edges before
      and after vertex `j`, or None where `intersect` returns `false`. */
  function OffsetVertex(points: seq<Point>, j: int, offset: real, sqrt: real -> real): Option<Point>
    requires IsSqrt(sqrt) && ProperPolygon(points) && 0 <= j < |points|
  {
    var i, k := PrevIndex(j, |points|), NextIndex(j, |points|);
    PrevEdgeProper(points, j);
    Intersect(OffsetEdge(points[i], points[j], offset, sqrt),
              OffsetEdge(points[j], points[k], offset, sqrt), false)
  }

  /** What `traceOffset(points, offset)` returns: one entry per vertex. */
  function OffsetOf(points: seq<Point>, offset: real, sqrt: real -> real): (r: seq<Option<Point>>)
    requires IsSqrt(sqrt) && ProperPolygon(points)
    ensures |r| == |points|
  {
    seq(|points|, j requires 0 <= j < |points| => OffsetVertex(points, j, offset, sqrt))
  }

  /** `traceOffset`: one entry per vertex, in order. */
  method TraceOffset(points: seq<Point>, offset: real, sqrt: real -> real)
    returns (result: seq<Option<Point>>)
    requires IsSqrt(sqrt) && ProperPolygon(points)
    ensures result == OffsetOf(points, offset, sqrt)
  {
    result := [];
    var j := 0;
    while j < |points|
      invariant 0 <= j <= |points|
      invariant result == OffsetOf(points, offset, sqrt)[..j]
    {
      var corner := OffsetCorner(points, j, offset, sqrt);
      PrefixStep(OffsetOf(points, offset, sqrt), j);
      result := result + [corner];
      j := j + 1;
    }
    assert OffsetOf(points, offset, sqrt)[..j] == OffsetOf(points, offset, sqrt);
  }

  /** The body of the loop of `traceOffset` for vertex `j`: the neighbour
      indices, wrapping around the polygon, the offset lines of the edge
      into `j` and the edge out of it, and their intersection. */
  method OffsetCorner(points: seq<Point>, j: int, offset: real, sqrt: real -> real)
    returns (corner: Option<Point>)
    requires IsSqrt(sqrt) && ProperPolygon(points) && 0 <= j < |points|
    ensures corner == OffsetVertex(points, j, offset, sqrt)
  {
    var i := j - 1;
    if i < 0 {
      i := i + |points|;
    }
    var k := (j + 1) % |points|;
    assert i == PrevIndex(j, |points|) && k == NextIndex(j, |points|);
    PrevEdgeProper(points, j);
    var v1 := Sub(points[j], points[i]);
    var n1 := Normal(v1, offset, sqrt);
    var line1 := Line(Add(points[i], n1), Add(points[j], n1));
    var v2 := Sub(points[k], points[j]);
    var n2 := Normal(v2, offset, sqrt);
    var line2 := Line(Add(points[j], n2), Add(points[k], n2));
    corner := Intersect(line1, line2, false);
  }

  // ---------------------------------------------------------------------
  // What the offset vertices satisfy

  /** The offset edge runs parallel to the edge, in the same direction. */
  lemma OffsetEdgeDir(p: Point, q: Point, offset: real, sqrt: real -> real)
    requires IsSqrt(sqrt) && p != q
    ensures Dir(OffsetEdge(p, q, offset, sqrt)) == Sub(q, p)
  {
  }

  /** A point lies on the offset edge exactly when its signed distance from
      the edge's line, measured as the cross product with the edge divided
      by the edge's length, is `offset`. */
  lemma OnOffsetEdge(p: Point, q: Point, offset: real, sqrt: real -> real, x: Point)
    requires IsSqrt(sqrt) && p != q
    ensures OnLine(x, OffsetEdge(p, q, offset, sqrt)) <==>
      Cross(Sub(q, p), Sub(x, p)) == offset * Magnitude(Sub(q, p), sqrt)
  {
    NormalSide(Sub(q, p), offset, sqrt);
    OnShiftedLine(p, q, Normal(Sub(q, p), offset, sqrt), OffsetEdge(p, q, offset, sqrt), x,
                  offset * Magnitude(Sub(q, p), sqrt));
  }

  /** A point lies on the line through `p` and `q` shifted by `n` exactly
      when its cross product with the edge equals that of `n`. */
  lemma OnShiftedLine(p: Point, q: Point, n: Point, l: Line, x: Point, c: real)
    requires l == Line(Add(p, n), Add(q, n)) && Cross(Sub(q, p), n) == c
    ensures OnLine(x, l) <==> Cross(Sub(q, p), Sub(x, p)) == c
  {
    var v := Sub(q, p);
    assert Dir(l) == v;
    CrossSplit(v, Sub(x, Add(p, n)), n, Sub(x, p));
    ShiftedZero(Cross(v, Sub(x, Add(p, n))), Cross(v, n), Cross(v, Sub(x, p)), c);
  }

  /** With `t = a + b` and `b = c`, `a` is zero exactly when `t` is `c`. */
  lemma ShiftedZero(a: real, b: real, t: real, c: real)
    requires t == a + b && b == c
    ensures a == 0.0 <==> t == c
  {
  }

  /** The cross product distributes over a sum. */
  lemma CrossSplit(v: Point, a: Point, b: Point, w: Point)
    requires w == Add(a, b)
    ensures Cross(v, w) == Cross(v, a) + Cross(v, b)
  {
  }

  /** Entry `j` is missing exactly when the edges meeting at vertex `j` are
      parallel. */
  lemma {:induction false} OffsetVertexNone(points: seq<Point>, j: int, offset: real, sqrt: real -> real)
    requires IsSqrt(sqrt) && ProperPolygon(points) && 0 <= j < |points|
    ensures var i, k := PrevIndex(j, |points|), NextIndex(j, |points|);
      OffsetVertex(points, j, offset, sqrt).None? <==>
      Cross(Sub(points[j], points[i]), Sub(points[k], points[j])) == 0.0
  {
    var i, k := PrevIndex(j, |points|), NextIndex(j, |points|);
    PrevEdgeProper(points, j);
    var a := OffsetEdge(points[i], points[j], offset, sqrt);
    var b := OffsetEdge(points[j], points[k], offset, sqrt);
    OffsetEdgeDir(points[i], points[j], offset, sqrt);
    OffsetEdgeDir(points[j], points[k], offset, sqrt);
    IntersectNone(a, b, false);
  }

  /** Every entry that is present lies at signed distance `offset` from
      both edges meeting at vertex `j`. */
  lemma {:induction false} OffsetVertexDistance(points: seq<Point>, j: int, offset: real, sqrt: real -> real)
    requires IsSqrt(sqrt) && ProperPolygon(points) && 0 <= j < |points|
    requires OffsetVertex(points, j, offset, sqrt).Some?
    ensures var i, k := PrevIndex(j, |points|), NextIndex(j, |points|);
      var x := OffsetVertex(points, j, offset, sqrt).value;
      && Cross(Sub(points[j], points[i]), Sub(x, points[i])) == offset * Magnitude(Sub(points[j], points[i]), sqrt)
      && Cross(Sub(points[k], points[j]), Sub(x, points[j])) == offset * Magnitude(Sub(points[k], points[j]), sqrt)
  {
    var i, k := PrevIndex(j, |points|), NextIndex(j, |points|);
    PrevEdgeProper(points, j);
    var a := OffsetEdge(points[i], points[j], offset, sqrt);
    var b := OffsetEdge(points[j], points[k], offset, sqrt);
    var x := OffsetVertex(points, j, offset, sqrt).value;
    IntersectOnBoth(a, b, false);
    OnOffsetEdge(points[i], points[j], offset, sqrt, x);
    OnOffsetEdge(points[j], points[k], offset, sqrt, x);
  }

  /** Conversely, when the edges at vertex `j` are not parallel, a point at
      signed distance `offset` from both of them is entry `j`. */
  lemma {:induction false} OffsetVertexExactly(points: seq<Point>, j: int, offset: real, sqrt: real -> real, x: Point)
    requires IsSqrt(sqrt) && ProperPolygon(points) && 0 <= j < |points|
    requires var i, k := PrevIndex(j, |points|), NextIndex(j, |points|);
      && Cross(Sub(points[j], points[i]), Sub(points[k], points[j])) != 0.0
      && Cross(Sub(points[j], points[i]), Sub(x, points[i])) == offset * Magnitude(Sub(points[j], points[i]), sqrt)
      && Cross(Sub(points[k], points[j]), Sub(x, points[j])) == offset * Magnitude(Sub(points[k], points[j]), sqrt)
    ensures OffsetVertex(points, j, offset, sqrt) == Some(x)
  {
    var i, k := PrevIndex(j, |points|), NextIndex(j, |points|);
    PrevEdgeProper(points, j);
    var a := OffsetEdge(points[i], points[j], offset, sqrt);
    var b := OffsetEdge(points[j], points[k], offset, sqrt);
    OffsetEdgeDir(points[i], points[j], offset, sqrt);
    OffsetEdgeDir(points[j], points[k], offset, sqrt);
    OnOffsetEdge(points[i], points[j], offset, sqrt, x);
    OnOffsetEdge(points[j], points[k], offset, sqrt, x);
    IntersectExactly(a, b, false, x);
  }
}
