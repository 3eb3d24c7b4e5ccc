/** Plane geometry used by the brick-coursing engine: points and vector
    helpers, edge length, midpoint, unit and normal vectors, Bourke's
    line intersection and the segment-trimming projection `closestPointEx`.

    The model works over exact reals. `Math.sqrt` is not a Dafny primitive,
    so every operation that takes a root receives a `sqrt` function together
    with the precondition `IsSqrt(sqrt)`, which says that it returns the
    non-negative square root of every non-negative argument. */
module Geometry {

  datatype Option<T> = None | Some(value: T)

  /** A coordinate pair `[x, y]`. */
  datatype Point = Point(x: real, y: real)

  /** A line given by two of its points, the flat `[x1, y1, x2, y2]` quadruple. */
  datatype Line = Line(p1: Point, p2: Point)

  /** A two-point segment `[[x1, y1], [x2, y2]]`. */
  datatype Segment = Segment(start: Point, end: Point)

  const Origin := Point(0.0, 0.0)

  function Add(p: Point, q: Point): Point { Point(p.x + q.x, p.y + q.y) }
  function Sub(p: Point, q: Point): Point { Point(p.x - q.x, p.y - q.y) }
  function Scale(k: real, p: Point): Point { Point(k * p.x, k * p.y) }
  function Dot(u: Point, v: Point): real { u.x * v.x + u.y * v.y }
  function Cross(u: Point, v: Point): real { u.x * v.y - u.y * v.x }

  // ---------------------------------------------------------------------
  // Products and squares

  /** A product together with the sign rules the proofs below rely on. */
  function Mul(a: real, b: real): (p: real)
    ensures a > 0.0 && b > 0.0 ==> p > 0.0
    ensures a < 0.0 && b < 0.0 ==> p > 0.0
    ensures a > 0.0 && b < 0.0 ==> p < 0.0
    ensures a < 0.0 && b > 0.0 ==> p < 0.0
    ensures a >= 0.0 && b >= 0.0 ==> p >= 0.0
  {
    a * b
  }

  /** `r * r`: never negative, and zero only for zero. */
  function Sq(r: real): (s: real)
    ensures s >= 0.0
    ensures s > 0.0 <==> r != 0.0
  {
    Mul(r, r)
  }

  /** The squared length `v[0] * v[0] + v[1] * v[1]`. */
  function SqNorm(v: Point): (s: real)
    ensures s >= 0.0
    ensures s > 0.0 <==> v != Origin
  {
    Sq(v.x) + Sq(v.y)
  }

  /** A product is zero only when a factor is. */
  lemma ZeroProduct(a: real, b: real)
    requires a * b == 0.0
    ensures a == 0.0 || b == 0.0
  {
    var p := Mul(a, b);
  }

  /** Cancelling a non-zero factor. */
  lemma Cancel(a: real, b: real, c: real)
    requires c != 0.0 && a * c == b * c
    ensures a == b
  {
    assert (a - b) * c == 0.0;
    ZeroProduct(a - b, c);
  }

  /** Squares commute with quotients. */
  lemma SqDiv(a: real, m: real)
    requires m != 0.0
    ensures Sq(a / m) * Sq(m) == Sq(a)
  {
    var q := a / m;
    assert q * m == a;
    assert Sq(q) * Sq(m) == (q * m) * (q * m);
  }

  /** Non-negative reals with equal squares are equal. */
  lemma SqInjective(a: real, b: real)
    requires a >= 0.0 && b >= 0.0 && Sq(a) == Sq(b)
    ensures a == b
  {
    assert (a - b) * (a + b) == Sq(a) - Sq(b);
    ZeroProduct(a - b, a + b);
    if a + b == 0.0 {
      assert a == 0.0 && b == 0.0;
    }
  }

  // ---------------------------------------------------------------------
  // Lengths

  /** `sqrt` agrees with `Math.sqrt` on every non-negative argument. */
  ghost predicate IsSqrt(sqrt: real -> real) {
    forall x: real :: 0.0 <= x ==> 0.0 <= sqrt(x) && Sq(sqrt(x)) == x
  }

  /** `sqLineMagnitude`: the squared distance between (x1, y1) and
      (x2, y2), positive exactly for distinct points. */
  function SqLineMagnitude(x1: real, y1: real, x2: real, y2: real): (m: real)
    ensures m >= 0.0
    ensures m > 0.0 <==> x1 != x2 || y1 != y2
  {
    Sq(x2 - x1) + Sq(y2 - y1)
  }

  /** The squared distance between two points. */
  function SqDist(p: Point, q: Point): real {
    SqLineMagnitude(p.x, p.y, q.x, q.y)
  }

  /** The magnitude `mag` computed inside `normalize` and `normal`: the
      non-negative root of the squared length, zero only for the zero
      vector. */
  function Magnitude(v: Point, sqrt: real -> real): (mag: real)
    requires IsSqrt(sqrt)
    ensures 0.0 <= mag && Sq(mag) == SqNorm(v)
    ensures mag > 0.0 <==> v != Origin
  {
    sqrt(v.x * v.x + v.y * v.y)
  }

  /** `len`: the Euclidean distance between two points. */
  function Len(curr: Point, next: Point, sqrt: real -> real): (r: real)
    requires IsSqrt(sqrt)
    ensures 0.0 <= r && Sq(r) == SqDist(curr, next)
    ensures r > 0.0 <==> curr != next
  {
    var deltaX := next.x - curr.x;
    var deltaY := next.y - curr.y;
    sqrt(deltaX * deltaX + deltaY * deltaY)
  }

  /** The distance is pinned down by its square: any non-negative `l`
      whose square is the squared distance is `len`. */
  lemma {:induction false} LenUnique(curr: Point, next: Point, l: real, sqrt: real -> real)
    requires IsSqrt(sqrt)
    requires 0.0 <= l && Sq(l) == SqDist(curr, next)
    ensures l == Len(curr, next, sqrt)
  {
    SqInjective(l, Len(curr, next, sqrt));
  }

  /** `len` does not depend on the direction of travel. */
  lemma {:induction false} LenSymmetric(p: Point, q: Point, sqrt: real -> real)
    requires IsSqrt(sqrt)
    ensures Len(p, q, sqrt) == Len(q, p, sqrt)
  {
    assert Sq(q.x - p.x) == Sq(p.x - q.x);
    assert Sq(q.y - p.y) == Sq(p.y - q.y);
    LenUnique(p, q, Len(q, p, sqrt), sqrt);
  }

  /** `midPoint`: the step from `curr` to the result equals the step from
      the result to `next`. */
  function MidPoint(curr: Point, next: Point): (m: Point)
    ensures Sub(m, curr) == Sub(next, m)
  {
    var midX := ((next.x - curr.x) / 2.0) + curr.x;
    var midY := ((next.y - curr.y) / 2.0) + curr.y;
    Point(midX, midY)
  }

  /** The midpoint is the only point halfway between `curr` and `next`,
      and it does not depend on their order. */
  lemma MidPointUnique(curr: Point, next: Point, m: Point)
    requires Sub(m, curr) == Sub(next, m)
    ensures m == MidPoint(curr, next) == MidPoint(next, curr)
  {
  }

  /** `normalize`: the unit vector along `v`. `v` must not be zero, where
      the source divides by zero. */
  function Normalize(v: Point, sqrt: real -> real): (n: Point)
    requires IsSqrt(sqrt) && v != Origin
    ensures SqNorm(n) == 1.0
    ensures Cross(v, n) == 0.0
    ensures Dot(v, n) == Magnitude(v, sqrt)
  {
    var mag := Magnitude(v, sqrt);
    var n := Point(v.x / mag, v.y / mag);
    NormalizeFacts(v, mag, n);
    n
  }

  lemma NormalizeFacts(v: Point, mag: real, n: Point)
    requires mag > 0.0 && Sq(mag) == SqNorm(v)
    requires n == Point(v.x / mag, v.y / mag)
    ensures SqNorm(n) == 1.0 && Cross(v, n) == 0.0 && Dot(v, n) == mag
  {
    UnitLength(v, mag, n);
    assert n.x * mag == v.x && n.y * mag == v.y;
    DivAlong(v, mag, n);
  }

  lemma UnitLength(v: Point, mag: real, n: Point)
    requires mag > 0.0 && Sq(mag) == SqNorm(v)
    requires n == Point(v.x / mag, v.y / mag)
    ensures SqNorm(n) == 1.0
  {
    UnitLengthScalar(v.x, v.y, mag);
  }

  lemma UnitLengthScalar(a: real, b: real, m: real)
    requires m > 0.0 && Sq(m) == Sq(a) + Sq(b)
    ensures Sq(a / m) + Sq(b / m) == 1.0
  {
    SqDiv(a, m);
    SqDiv(b, m);
    SumCancel(Sq(a / m), Sq(b / m), Sq(m), Sq(a), Sq(b));
  }

  /** If `sa` and `sb` are the shares `qa` and `qb` of `sm = qa + qb`, they
      sum to one. */
  lemma SumCancel(sa: real, sb: real, sm: real, qa: real, qb: real)
    requires sm > 0.0 && sa * sm == qa && sb * sm == qb && sm == qa + qb
    ensures sa + sb == 1.0
  {
    assert (sa + sb) * sm == sa * sm + sb * sm;
    Cancel(sa + sb, 1.0, sm);
  }

  lemma DivAlong(v: Point, mag: real, n: Point)
    requires mag > 0.0 && Sq(mag) == SqNorm(v)
    requires n.x * mag == v.x && n.y * mag == v.y
    ensures Cross(v, n) == 0.0 && Dot(v, n) == mag
  {
    assert Cross(v, n) * mag == n.y * mag * n.x * mag - n.x * mag * n.y * mag;
    Cancel(Cross(v, n), 0.0, mag);
    assert Dot(v, n) * mag == SqNorm(v);
    Cancel(Dot(v, n), mag, mag);
  }

  /** `normal`: the left-hand perpendicular of `v` scaled to `offset`. */
  function Normal(v: Point, offset: real, sqrt: real -> real): Point
    requires IsSqrt(sqrt) && v != Origin
  {
    var mag := Magnitude(v, sqrt);
    var tmp := Point(v.x / mag * offset, v.y / mag * offset);
    Point(-tmp.y, tmp.x)
  }

  /** `normal(v, offset)` is `normalize(v)` scaled by `offset` and turned a
      quarter to the left. */
  lemma NormalIsTurnedUnit(v: Point, offset: real, sqrt: real -> real)
    requires IsSqrt(sqrt) && v != Origin
    ensures var n := Normalize(v, sqrt);
      Normal(v, offset, sqrt) == Point(-(offset * n.y), offset * n.x)
  {
  }

  /** The normal is orthogonal to `v`. */
  lemma NormalOrthogonal(v: Point, offset: real, sqrt: real -> real)
    requires IsSqrt(sqrt) && v != Origin
    ensures Dot(Normal(v, offset, sqrt), v) == 0.0
  {
    NormalIsTurnedUnit(v, offset, sqrt);
    NormalDot(v, offset, Normalize(v, sqrt), Normal(v, offset, sqrt));
  }

  /** The normal is `|offset|` long. */
  lemma NormalLength(v: Point, offset: real, sqrt: real -> real)
    requires IsSqrt(sqrt) && v != Origin
    ensures SqNorm(Normal(v, offset, sqrt)) == Sq(offset)
  {
    NormalIsTurnedUnit(v, offset, sqrt);
    NormalSq(offset, Normalize(v, sqrt), Normal(v, offset, sqrt));
  }

  /** The signed area the normal spans with `v` is `offset * |v|`, so it
      points to the left of `v` for a positive offset and to the right for
      a negative one. */
  lemma NormalSide(v: Point, offset: real, sqrt: real -> real)
    requires IsSqrt(sqrt) && v != Origin
    ensures Cross(v, Normal(v, offset, sqrt)) == offset * Magnitude(v, sqrt)
  {
    NormalIsTurnedUnit(v, offset, sqrt);
    NormalCross(v, offset, Normalize(v, sqrt), Magnitude(v, sqrt), Normal(v, offset, sqrt));
  }

  lemma NormalDot(v: Point, offset: real, n: Point, r: Point)
    requires Cross(v, n) == 0.0
    requires r == Point(-(offset * n.y), offset * n.x)
    ensures Dot(r, v) == 0.0
  {
    assert Dot(r, v) == -(offset * Cross(v, n));
  }

  lemma NormalSq(offset: real, n: Point, r: Point)
    requires SqNorm(n) == 1.0
    requires r == Point(-(offset * n.y), offset * n.x)
    ensures SqNorm(r) == Sq(offset)
  {
    assert SqNorm(r) == Sq(offset) * SqNorm(n);
  }

  lemma NormalCross(v: Point, offset: real, n: Point, mag: real, r: Point)
    requires Dot(v, n) == mag
    requires r == Point(-(offset * n.y), offset * n.x)
    ensures Cross(v, r) == offset * mag
  {
    assert Cross(v, r) == offset * Dot(v, n);
  }

  // ---------------------------------------------------------------------
  // Bourke's line intersection

  /** The direction of a line, from its first point to its second. */
  function Dir(l: Line): Point { Sub(l.p2, l.p1) }

  /** The point at parameter `u` along `l`: `l.p1` for 0, `l.p2` for 1. */
  function PointAt(l: Line, u: real): Point {
    Add(l.p1, Scale(u, Dir(l)))
  }

  /** `p` lies on the infinite line through `l.p1` and `l.p2`. */
  ghost predicate OnLine(p: Point, l: Line) {
    Cross(Dir(l), Sub(p, l.p1)) == 0.0
  }

  /** `p` lies on the closed segment from `l.p1` to `l.p2`: on the line, and
      its projection onto the direction falls between the two ends. */
  ghost predicate OnSegment(p: Point, l: Line) {
    OnLine(p, l) && 0.0 <= Dot(Sub(p, l.p1), Dir(l)) <= SqNorm(Dir(l))
  }

  /** The `denominator` of `intersect`. */
  function Denominator(a: Line, b: Line): real {
    (b.p2.y - b.p1.y) * (a.p2.x - a.p1.x) - (b.p2.x - b.p1.x) * (a.p2.y - a.p1.y)
  }

  /** The parameter `ua` of the crossing along `a`. */
  function ParamA(a: Line, b: Line): real
    requires Denominator(a, b) != 0.0
  {
    ((b.p2.x - b.p1.x) * (a.p1.y - b.p1.y) - (b.p2.y - b.p1.y) * (a.p1.x - b.p1.x)) / Denominator(a, b)
  }

  /** The parameter `ub` of the crossing along `b`. */
  function ParamB(a: Line, b: Line): real
    requires Denominator(a, b) != 0.0
  {
    ((a.p2.x - a.p1.x) * (a.p1.y - b.p1.y) - (a.p2.y - a.p1.y) * (a.p1.x - b.p1.x)) / Denominator(a, b)
  }

  /** `intersect`: the common point of lines `a` and `b`, or None (the
      source's `false`) when either line is a single point, when the lines
      are parallel, or, with `enforceSegments`, when the crossing lies
      outside either segment. */
  function Intersect(a: Line, b: Line, enforceSegments: bool): Option<Point> {
    if a.p1 == a.p2 || b.p1 == b.p2 then None
    else if Denominator(a, b) == 0.0 then None
    else
      var ua := ParamA(a, b);
      var ub := ParamB(a, b);
      if enforceSegments && (ua < 0.0 || ua > 1.0 || ub < 0.0 || ub > 1.0) then None
      else Some(PointAt(a, ua))
  }

  /** The denominator is the cross product of the two directions, so it is
      zero exactly when the lines are parallel. */
  lemma DenominatorIsCross(a: Line, b: Line)
    ensures Denominator(a, b) == Cross(Dir(a), Dir(b))
  {
  }

  /** Lines with a non-zero denominator are not single points. */
  lemma NonDegenerate(a: Line, b: Line)
    requires Denominator(a, b) != 0.0
    ensures a.p1 != a.p2 && b.p1 != b.p2
  {
  }

  /** Without `enforceSegments`, `intersect` returns the point at `ua`
      along `a` whenever the lines are not parallel. */
  lemma IntersectFree(a: Line, b: Line)
    requires Denominator(a, b) != 0.0
    ensures Intersect(a, b, false) == Some(PointAt(a, ParamA(a, b)))
  {
    NonDegenerate(a, b);
  }

  /** With `enforceSegments`, the same point when both parameters lie in
      [0, 1], and None otherwise. */
  lemma IntersectEnforced(a: Line, b: Line)
    requires Denominator(a, b) != 0.0
    ensures Intersect(a, b, true) ==
      if 0.0 <= ParamA(a, b) <= 1.0 && 0.0 <= ParamB(a, b) <= 1.0 then Some(PointAt(a, ParamA(a, b)))
      else None
  {
    NonDegenerate(a, b);
  }

  /** `intersect` fails exactly when a line is a single point, when the lines
      are parallel, or, with `enforceSegments`, when a parameter leaves
      [0, 1]. */
  lemma {:induction false} IntersectNone(a: Line, b: Line, enforceSegments: bool)
    ensures Intersect(a, b, enforceSegments).None? <==>
      a.p1 == a.p2 || b.p1 == b.p2 || Cross(Dir(a), Dir(b)) == 0.0 ||
      (enforceSegments && !(0.0 <= ParamA(a, b) <= 1.0 && 0.0 <= ParamB(a, b) <= 1.0))
  {
    DenominatorIsCross(a, b);
    if Denominator(a, b) != 0.0 {
      NonDegenerate(a, b);
      if enforceSegments { IntersectEnforced(a, b); } else { IntersectFree(a, b); }
    }
  }

  /** Bourke's derivation, multiplied out: the point at `ua` along `a` is
      the point at `ub` along `b`. */
  lemma {:induction false} Crossing(a: Line, b: Line)
    requires Denominator(a, b) != 0.0
    ensures PointAt(a, ParamA(a, b)) == PointAt(b, ParamB(a, b))
  {
    var den := Denominator(a, b);
    var ua, ub := ParamA(a, b), ParamB(a, b);
    var d1, d2, w := Dir(a), Dir(b), Sub(a.p1, b.p1);
    assert den == d1.x * d2.y - d1.y * d2.x;
    assert ua * den == d2.x * w.y - d2.y * w.x;
    assert ub * den == d1.x * w.y - d1.y * w.x;
    assert (w.x + ua * d1.x - ub * d2.x) * den == 0.0;
    assert (w.y + ua * d1.y - ub * d2.y) * den == 0.0;
    ZeroProduct(w.x + ua * d1.x - ub * d2.x, den);
    ZeroProduct(w.y + ua * d1.y - ub * d2.y, den);
  }

  /** Every point at a parameter along `l` lies on `l`. */
  lemma AlongLine(l: Line, u: real)
    ensures OnLine(PointAt(l, u), l)
  {
    assert Sub(PointAt(l, u), l.p1) == Scale(u, Dir(l));
    CrossScaled(u, Dir(l));
  }

  lemma CrossScaled(u: real, d: Point)
    ensures Cross(d, Scale(u, d)) == 0.0
  {
  }

  lemma DotScaled(u: real, d: Point, s: real)
    requires s == SqNorm(d)
    ensures Dot(Scale(u, d), d) == u * s
  {
    assert Dot(Scale(u, d), d) == u * (d.x * d.x) + u * (d.y * d.y);
  }

  /** For a proper segment, the point at `u` lies on it exactly when `u`
      lies in [0, 1]. */
  lemma AlongSegment(l: Line, u: real)
    requires l.p1 != l.p2
    ensures OnSegment(PointAt(l, u), l) <==> 0.0 <= u <= 1.0
  {
    var d, p := Dir(l), PointAt(l, u);
    var s := SqNorm(d);
    AlongLine(l, u);
    assert Sub(p, l.p1) == Scale(u, d);
    DotScaled(u, d, s);
    SegmentByParam(p, l, u, s);
  }

  /** A point whose projection onto a proper segment's direction is `u`
      times the squared length `s` projects inside the segment exactly when
      `u` lies in [0, 1]. */
  lemma SegmentByParam(p: Point, l: Line, u: real, s: real)
    requires l.p1 != l.p2 && s == SqNorm(Dir(l))
    requires Dot(Sub(p, l.p1), Dir(l)) == u * s
    ensures 0.0 <= Dot(Sub(p, l.p1), Dir(l)) <= SqNorm(Dir(l)) <==> 0.0 <= u <= 1.0
  {
    ProperDir(l);
    UnitRange(Dot(Sub(p, l.p1), Dir(l)), u, s);
  }

  /** A line through two different points has a direction of positive
      squared length. */
  lemma ProperDir(l: Line)
    requires l.p1 != l.p2
    ensures SqNorm(Dir(l)) > 0.0
  {
    assert Dir(l) != Origin;
  }

  /** For a positive `s`, `x == u * s` lies in [0, s] exactly when `u`
      lies in [0, 1]. */
  lemma UnitRange(x: real, u: real, s: real)
    requires s > 0.0 && x == u * s
    ensures 0.0 <= x <= s <==> 0.0 <= u <= 1.0
  {
    var below := Mul(u, s);
    var above := Mul(u - 1.0, s);
    assert above == u * s - s;
  }

  /** The point `intersect` returns lies on both lines, and with
      `enforceSegments` on both segments. */
  lemma {:induction false} IntersectOnBoth(a: Line, b: Line, enforceSegments: bool)
    requires Intersect(a, b, enforceSegments).Some?
    ensures OnLine(Intersect(a, b, enforceSegments).value, a)
    ensures OnLine(Intersect(a, b, enforceSegments).value, b)
    ensures enforceSegments ==>
      OnSegment(Intersect(a, b, enforceSegments).value, a) &&
      OnSegment(Intersect(a, b, enforceSegments).value, b)
  {
    IntersectNone(a, b, enforceSegments);
    DenominatorIsCross(a, b);
    if enforceSegments { IntersectEnforced(a, b); } else { IntersectFree(a, b); }
    Crossing(a, b);
    AlongLine(a, ParamA(a, b));
    AlongLine(b, ParamB(a, b));
    if enforceSegments {
      AlongSegment(a, ParamA(a, b));
      AlongSegment(b, ParamB(a, b));
    }
  }

  /** A vector along two non-parallel directions is zero. */
  lemma ParallelToBoth(d1: Point, d2: Point, e: Point)
    requires Cross(d1, d2) != 0.0
    requires Cross(d1, e) == 0.0 && Cross(d2, e) == 0.0
    ensures e == Origin
  {
    assert Cross(d1, d2) * e.x == Cross(d1, e) * d2.x - Cross(d2, e) * d1.x;
    assert Cross(d1, d2) * e.y == Cross(d1, e) * d2.y - Cross(d2, e) * d1.y;
    ZeroProduct(Cross(d1, d2), e.x);
    ZeroProduct(Cross(d1, d2), e.y);
  }

  /** Two points on one line differ by a vector along it. */
  lemma BothOnLine(p: Point, q: Point, l: Line)
    requires OnLine(p, l) && OnLine(q, l)
    ensures Cross(Dir(l), Sub(p, q)) == 0.0
  {
    assert Cross(Dir(l), Sub(p, q)) == Cross(Dir(l), Sub(p, l.p1)) - Cross(Dir(l), Sub(q, l.p1));
  }

  /** Converse of `IntersectOnBoth`: when the lines are not parallel, any
      point on both of them is the one `intersect` returns, unless
      `enforceSegments` is set and the point lies outside a segment. */
  lemma {:induction false} IntersectExactly(a: Line, b: Line, enforceSegments: bool, p: Point)
    requires Cross(Dir(a), Dir(b)) != 0.0
    requires OnLine(p, a) && OnLine(p, b)
    ensures Intersect(a, b, enforceSegments) ==
      if !enforceSegments || (OnSegment(p, a) && OnSegment(p, b)) then Some(p) else None
  {
    DenominatorIsCross(a, b);
    NonDegenerate(a, b);
    Crossing(a, b);
    var q := PointAt(a, ParamA(a, b));
    AlongLine(a, ParamA(a, b));
    AlongLine(b, ParamB(a, b));
    BothOnLine(p, q, a);
    BothOnLine(p, q, b);
    ParallelToBoth(Dir(a), Dir(b), Sub(p, q));
    assert p == q;
    AlongSegment(a, ParamA(a, b));
    AlongSegment(b, ParamB(a, b));
    if enforceSegments { IntersectEnforced(a, b); } else { IntersectFree(a, b); }
  }

  // ---------------------------------------------------------------------
  // closestPointEx

  /** Lengths below `EPS` count as zero. */
  const EPS: real := 0.000001
  const EPS_SQ: real := EPS * EPS

  /** The segment as the line through its two ends. */
  function AsLine(s: Segment): Line { Line(s.start, s.end) }

  /** The parameter `u` of the projection of `p` onto the line through the
      segment, for a segment that is not too short: the dot product of
      `p - start` with `end - start` over `sqLineMag`. */
  function ProjectionParam(s: Segment, p: Point): real
    requires SqDist(s.start, s.end) >= EPS_SQ
  {
    Dot(Sub(p, s.start), Sub(s.end, s.start)) / SqLineMagnitude(s.start.x, s.start.y, s.end.x, s.end.y)
  }

  /** The foot of the perpendicular from `p` onto the line through `s`. */
  function Foot(s: Segment, p: Point): Point
    requires SqDist(s.start, s.end) >= EPS_SQ
  {
    PointAt(AsLine(s), ProjectionParam(s, p))
  }

  /** `closestPointEx`: None (the source's `-1`) for a segment shorter than
      `EPS`; the segment itself when the projection of `p` falls before
      parameter `EPS` or past the end; otherwise the segment with its start
      (`side`) or its end (`!side`) moved to the projection. Both ends of
      the result lie on the original segment. */
  function ClosestPointEx(s: Segment, p: Point, side: bool): (r: Option<Segment>)
    ensures r.None? <==> SqDist(s.start, s.end) < EPS_SQ
    ensures r.Some? && side ==> r.value.end == s.end
    ensures r.Some? && !side ==> r.value.start == s.start
  {
    var x1, y1, x2, y2 := s.start.x, s.start.y, s.end.x, s.end.y;
    var sqLineMag := SqLineMagnitude(x1, y1, x2, y2);
    if sqLineMag < EPS_SQ then None
    else
      var u := ProjectionParam(s, p);
      if u < EPS || u > 1.0 then Some(s)
      else
        var newPoint := PointAt(AsLine(s), u);
        if side then Some(Segment(newPoint, s.end)) else Some(Segment(s.start, newPoint))
  }

  /** Both ends of what `closestPointEx` returns lie on the segment it was
      given. */
  lemma {:induction false} ClosestOnSegment(s: Segment, p: Point, side: bool)
    requires ClosestPointEx(s, p, side).Some?
    ensures OnSegment(ClosestPointEx(s, p, side).value.start, AsLine(s))
    ensures OnSegment(ClosestPointEx(s, p, side).value.end, AsLine(s))
  {
    EndsOnSegment(AsLine(s));
    if EPS <= ProjectionParam(s, p) <= 1.0 {
      ClosestTrimmed(s, p, side);
      TrimmedOnSegment(s, p);
    }
  }

  /** A trim puts the foot of the perpendicular in place of the start
      (`side`) or of the end (`!side`). */
  lemma ClosestTrimmed(s: Segment, p: Point, side: bool)
    requires SqDist(s.start, s.end) >= EPS_SQ && EPS <= ProjectionParam(s, p) <= 1.0
    ensures ClosestPointEx(s, p, side) ==
      Some(if side then Segment(Foot(s, p), s.end) else Segment(s.start, Foot(s, p)))
  {
  }

  /** A foot whose parameter lies in [`EPS`, 1] lies on the segment. */
  lemma TrimmedOnSegment(s: Segment, p: Point)
    requires SqDist(s.start, s.end) >= EPS_SQ && EPS <= ProjectionParam(s, p) <= 1.0
    ensures OnSegment(Foot(s, p), AsLine(s))
  {
    AlongSegment(AsLine(s), ProjectionParam(s, p));
  }

  /** The point at `u2` along the tail of a segment that starts at its
      point `u1` is the point at `u1 + u2 * (1 - u1)` along the whole
      segment, and for `u1` and `u2` in [0, 1] that parameter is in [0, 1]
      too: a point of the tail is a point of the segment. */
  lemma TailPointAt(l: Line, u1: real, u2: real)
    requires 0.0 <= u1 <= 1.0 && 0.0 <= u2 <= 1.0
    ensures PointAt(Line(PointAt(l, u1), l.p2), u2) == PointAt(l, u1 + u2 * (1.0 - u1))
    ensures 0.0 <= u1 + u2 * (1.0 - u1) <= 1.0
  {
    var d := Dir(l);
    assert Dir(Line(PointAt(l, u1), l.p2)) == Scale(1.0 - u1, d);
    var used := Mul(u2, 1.0 - u1);
    var spare := Mul(1.0 - u2, 1.0 - u1);
  }

  /** Both ends of a line lie on its segment. */
  lemma EndsOnSegment(l: Line)
    ensures OnSegment(l.p1, l) && OnSegment(l.p2, l)
  {
    assert Sub(l.p1, l.p1) == Origin;
    assert Dot(Dir(l), Dir(l)) == SqNorm(Dir(l));
  }

  /** `u` times `sqLineMag` is the projection of `p - start` onto the
      segment's direction. */
  lemma ProjectionParamDot(s: Segment, p: Point)
    requires SqDist(s.start, s.end) >= EPS_SQ
    ensures ProjectionParam(s, p) * SqDist(s.start, s.end) == Dot(Sub(p, s.start), Sub(s.end, s.start))
  {
    DivCancel(Dot(Sub(p, s.start), Sub(s.end, s.start)), SqDist(s.start, s.end));
  }

  lemma DivCancel(n: real, m: real)
    requires m != 0.0
    ensures (n / m) * m == n
  {
  }

  /** The step from `p` to the foot is perpendicular to the segment. */
  lemma {:induction false} FootPerpendicular(s: Segment, p: Point)
    requires SqDist(s.start, s.end) >= EPS_SQ
    ensures Dot(Sub(Foot(s, p), p), Dir(AsLine(s))) == 0.0
  {
    var d, u := Dir(AsLine(s)), ProjectionParam(s, p);
    var w := Sub(p, s.start);
    ProjectionParamDot(s, p);
    assert Sub(Foot(s, p), p) == Sub(Scale(u, d), w);
    DotScaledSub(u, d, w, SqDist(s.start, s.end));
  }

  lemma DotScaledSub(u: real, d: Point, w: Point, m: real)
    requires m == SqNorm(d)
    ensures Dot(Sub(Scale(u, d), w), d) == u * m - Dot(w, d)
  {
    assert Dot(Sub(Scale(u, d), w), d) == u * (d.x * d.x) + u * (d.y * d.y) - Dot(w, d);
  }

  /** The foot is the point of the line nearest to `p`: no point at any
      parameter `t` along the line is closer. */
  lemma {:induction false} FootIsNearest(s: Segment, p: Point, t: real)
    requires SqDist(s.start, s.end) >= EPS_SQ
    ensures SqDist(p, Foot(s, p)) <= SqDist(p, PointAt(AsLine(s), t))
  {
    var d, u, f := Dir(AsLine(s)), ProjectionParam(s, p), Foot(s, p);
    var e := Sub(f, p);
    FootPerpendicular(s, p);
    var k := t - u;
    var q := PointAt(AsLine(s), t);
    ScaleDiff(k, t, u, d);
    assert Sub(q, p) == Add(Scale(k, d), e);
    NearerThan(p, f, q, d, k);
  }

  /** If `f - p` is perpendicular to `d` and `q` lies a multiple of `d`
      away from `f`, then `f` is at least as close to `p` as `q` is. */
  lemma NearerThan(p: Point, f: Point, q: Point, d: Point, k: real)
    requires Dot(Sub(f, p), d) == 0.0
    requires Sub(q, p) == Add(Scale(k, d), Sub(f, p))
    ensures SqDist(p, f) <= SqDist(p, q)
  {
    NoShorter(k, d, Sub(f, p));
    assert SqDist(p, q) == SqNorm(Sub(q, p));
    assert SqDist(p, f) == SqNorm(Sub(f, p));
  }

  lemma ScaleDiff(k: real, t: real, u: real, d: Point)
    requires k == t - u
    ensures Scale(k, d) == Sub(Scale(t, d), Scale(u, d))
  {
  }

  /** Adding a multiple of `d` to a vector perpendicular to `d` adds the
      square of its length. */
  lemma Pythagoras(k: real, d: Point, e: Point)
    requires Dot(e, d) == 0.0
    ensures SqNorm(Add(Scale(k, d), e)) == Sq(k) * SqNorm(d) + SqNorm(e)
  {
    var v := Add(Scale(k, d), e);
    SqNormCoords(v);
    SqNormCoords(d);
    SqNormCoords(e);
    PythagorasRaw(k, d.x, d.y, e.x, e.y, v.x, v.y, Sq(k), SqNorm(d), SqNorm(e));
  }

  /** The squared length written out in coordinates. */
  lemma SqNormCoords(v: Point)
    ensures SqNorm(v) == v.x * v.x + v.y * v.y
  {
    assert Sq(v.x) == v.x * v.x && Sq(v.y) == v.y * v.y;
  }

  /** `Pythagoras` on coordinates: `v = k d + e` with `e` perpendicular to
      `d`, and `kk`, `dd` and `ee` the squares of `k`, `d` and `e`. */
  lemma PythagorasRaw(k: real, dx: real, dy: real, ex: real, ey: real, vx: real, vy: real,
                      kk: real, dd: real, ee: real)
    requires ex * dx + ey * dy == 0.0
    requires vx == k * dx + ex && vy == k * dy + ey
    requires kk == k * k && dd == dx * dx + dy * dy && ee == ex * ex + ey * ey
    ensures vx * vx + vy * vy == kk * dd + ee
  {
    assert vx * vx == (k * k) * (dx * dx) + 2.0 * k * (ex * dx) + ex * ex;
    assert vy * vy == (k * k) * (dy * dy) + 2.0 * k * (ey * dy) + ey * ey;
    assert 2.0 * k * (ex * dx) + 2.0 * k * (ey * dy) == 2.0 * k * (ex * dx + ey * dy);
    assert kk * dd == (k * k) * (dx * dx) + (k * k) * (dy * dy);
  }

  lemma NoShorter(k: real, d: Point, e: Point)
    requires Dot(e, d) == 0.0
    ensures SqNorm(Add(Scale(k, d), e)) >= SqNorm(e)
  {
    Pythagoras(k, d, e);
    var area := Mul(Sq(k), SqNorm(d));
  }

  /** The segment comes back unchanged exactly when it is long enough and
      the projection parameter lies below `EPS` or above 1, or, when the end
      is the one replaced, at exactly 1: any other trim moves an end. */
  lemma {:induction false} ClosestUnchanged(s: Segment, p: Point, side: bool)
    ensures ClosestPointEx(s, p, side) == Some(s) <==>
      SqDist(s.start, s.end) >= EPS_SQ &&
      (ProjectionParam(s, p) < EPS || ProjectionParam(s, p) > 1.0 || (!side && ProjectionParam(s, p) == 1.0))
  {
    if SqDist(s.start, s.end) >= EPS_SQ && EPS <= ProjectionParam(s, p) <= 1.0 {
      ClosestTrimmed(s, p, side);
      FootLeavesStart(s, p);
      FootAtEnd(s, p);
    }
  }

  /** A foot at a parameter of at least `EPS` is not the start. */
  lemma FootLeavesStart(s: Segment, p: Point)
    requires SqDist(s.start, s.end) >= EPS_SQ && EPS <= ProjectionParam(s, p)
    ensures Foot(s, p) != s.start
  {
    var u, d := ProjectionParam(s, p), Dir(AsLine(s));
    assert Sub(Foot(s, p), s.start) == Scale(u, d);
    assert d != Origin;
    ScaledNonZero(u, d);
  }

  /** The foot is the end exactly at parameter 1. */
  lemma FootAtEnd(s: Segment, p: Point)
    requires SqDist(s.start, s.end) >= EPS_SQ
    ensures Foot(s, p) == s.end <==> ProjectionParam(s, p) == 1.0
  {
    var u, d := ProjectionParam(s, p), Dir(AsLine(s));
    var k := u - 1.0;
    ScaleShift(k, u, d);
    assert Sub(Foot(s, p), s.end) == Scale(k, d);
    assert d != Origin;
    if k != 0.0 {
      ScaledNonZero(k, d);
    }
  }

  /** Scaling by `u - 1` steps back one `d` from scaling by `u`. */
  lemma ScaleShift(k: real, u: real, d: Point)
    requires k == u - 1.0
    ensures Scale(k, d) == Sub(Scale(u, d), d)
  {
  }

  /** A non-zero multiple of a non-zero vector is not zero. */
  lemma ScaledNonZero(k: real, d: Point)
    requires k != 0.0 && d != Origin
    ensures Scale(k, d) != Origin
  {
    if Scale(k, d) == Origin {
      ZeroProduct(k, d.x);
      ZeroProduct(k, d.y);
    }
  }

  // ---------------------------------------------------------------------
  // Polygons and sequences

  /** The number of edges the `iterateEdges` of bricks.js and of
      bricks1.js walk: `points.length - 1`, and none for an empty polygon.
      The closing edge is not among them. */
  function EdgeCount(points: seq<Point>): nat {
    if |points| == 0 then 0 else |points| - 1
  }

  /** Extending a prefix by one element. */
  lemma PrefixStep<T>(s: seq<T>, i: int)
    requires 0 <= i < |s|
    ensures s[..i + 1] == s[..i] + [s[i]]
  {
  }
}
