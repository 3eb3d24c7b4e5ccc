/** Brick coursing along one edge: the brick dimensions, the cut points
    `emitCutPoints` lays out from both ends of an edge toward its midpoint,
    and `traceBetween`, which shifts a course by half a brick to stagger it
    against its neighbours. */
module Coursing {
  import opened Geometry

  /** The dimensions `makeBrickInfo` records. */
  datatype BrickInfo = BrickInfo(brickWidth: real, brickHeight: real, brickLength: real, mortarThickness: real)

  /** `makeBrickInfo`: a brick is as long as two brick widths plus one mortar
      joint, so two headers laid across a course span exactly one
      stretcher. */
  function MakeBrickInfo(brickWidth: real, brickHeight: real, mortarThickness: real): (info: BrickInfo)
    ensures info.brickWidth == brickWidth && info.brickHeight == brickHeight
    ensures info.mortarThickness == mortarThickness
    ensures info.brickLength - info.mortarThickness == info.brickWidth + info.brickWidth
  {
    BrickInfo(brickWidth, brickHeight, (2.0 * brickWidth) + mortarThickness, mortarThickness)
  }

  /** The distance between consecutive regular cuts: one brick and one
      joint. */
  function Pitch(info: BrickInfo): real {
    info.brickLength + info.mortarThickness
  }

  // ---------------------------------------------------------------------
  // emitCutPoints

  /** The quantities `emitCutPoints` derives from an edge that is longer
      than one brick: its ends, midpoint, unit direction `n` from `next`
      toward `curr`, the number of whole bricks `steps` in each half, and
      whether the midpoint is cut as well. */
  datatype Layout = Layout(
    curr: Point, next: Point, mid: Point, n: Point,
    steps: nat, addMidPoint: bool, info: BrickInfo)

  /** The layout of the edge from `next` to `curr`, or None when the edge
      is no longer than one brick and gets no cuts. */
  function LayoutOf(curr: Point, next: Point, info: BrickInfo, sqrt: real -> real): (r: Option<Layout>)
    requires IsSqrt(sqrt) && info.brickLength > 0.0
    ensures r.None? <==> Len(curr, next, sqrt) <= info.brickLength
    ensures r.Some? ==> r.value.curr == curr && r.value.next == next && r.value.info == info
    ensures r.Some? ==> Course(r.value, sqrt)
    ensures r.Some? ==> var halfway := Len(curr, next, sqrt) / 2.0;
      && r.value.steps == Steps(halfway, info.brickLength)
      && (r.value.addMidPoint <==> Remainder(halfway, info.brickLength, r.value.steps) > info.brickLength / 2.0)
  {
    var length := Len(curr, next, sqrt);
    if length <= info.brickLength then None
    else
      var halfway := length / 2.0;
      var steps := Steps(halfway, info.brickLength);
      var remainder := Remainder(halfway, info.brickLength, steps);
      assert Sub(curr, next) != Origin;
      var l := Layout(curr, next, MidPoint(curr, next), Normalize(Sub(curr, next), sqrt),
                      steps, remainder > info.brickLength / 2.0, info);
      Some(l)
  }

  /** What every layout of `LayoutOf` satisfies: `mid` is the midpoint, `n`
      is the unit vector from `next` toward `curr`, and an edge with no
      whole brick in a half (`steps == 0`) always gets its midpoint cut. */
  ghost predicate Course(l: Layout, sqrt: real -> real)
    requires IsSqrt(sqrt)
  {
    && l.curr != l.next
    && l.mid == MidPoint(l.curr, l.next)
    && l.n == Normalize(Sub(l.curr, l.next), sqrt)
    && (l.steps == 0 ==> l.addMidPoint)
  }

  /** `steps`: the number of whole bricks in `halfway`, the floor of
      `halfway / brickLength`. What is left over is less than one brick,
      and a positive `halfway` has no negative count. */
  function Steps(halfway: real, brickLength: real): (steps: int)
    requires brickLength > 0.0
    ensures 0.0 <= Remainder(halfway, brickLength, steps) < brickLength
    ensures halfway > 0.0 ==> steps >= 0
  {
    var steps := (halfway / brickLength).Floor;
    FloorBounds(halfway, brickLength, steps);
    if halfway > 0.0 then DivPositive(halfway, brickLength); steps else steps
  }

  /** `remainder`: what is left of `halfway` after `steps` bricks. */
  function Remainder(halfway: real, brickLength: real, steps: int): real {
    halfway - steps as real * brickLength
  }

  /** A positive quotient of positive reals. */
  lemma DivPositive(a: real, b: real)
    requires a > 0.0 && b > 0.0
    ensures a / b > 0.0
  {
    var q := a / b;
    assert q * b == a;
    var p := Mul(q, b);
  }

  /** The `i`-th cut of the first loop, walking from `next` toward the
      midpoint: `i` pitches along `n`, except that the last one is pulled
      to `brickWidth` short of the midpoint when the midpoint itself is not
      cut. */
  function ForwardCut(l: Layout, i: int): Point {
    if i == l.steps && !l.addMidPoint then
      Point(l.mid.x - l.info.brickWidth * l.n.x, l.mid.y - l.info.brickWidth * l.n.y)
    else
      var delta := i as real * Pitch(l.info);
      Point(delta * l.n.x + l.next.x, delta * l.n.y + l.next.y)
  }

  /** The `i`-th cut of the second loop, counted from `curr`: the mirror
      image of `ForwardCut(l, i)`. */
  function BackwardCut(l: Layout, i: int): Point {
    if i == l.steps && !l.addMidPoint then
      Point(l.mid.x + l.info.brickWidth * l.n.x, l.mid.y + l.info.brickWidth * l.n.y)
    else
      var delta := i as real * Pitch(l.info);
      Point(l.curr.x - delta * l.n.x, l.curr.y - delta * l.n.y)
  }

  /** The first half of the cuts, in the order the first loop emits them. */
  function FirstHalf(l: Layout): (h: seq<Point>)
    ensures |h| == l.steps + 1
  {
    seq(l.steps + 1, i => ForwardCut(l, i))
  }

  /** The second half, walking back from the midpoint to `curr`. */
  function SecondHalf(l: Layout): (h: seq<Point>)
    ensures |h| == l.steps + 1
  {
    seq(l.steps + 1, j => BackwardCut(l, l.steps - j))
  }

  /** The optional centre cut. */
  function Centre(l: Layout): seq<Point> {
    if l.addMidPoint then [l.mid] else []
  }

  /** All cuts of a layout. */
  function CutPoints(l: Layout): seq<Point> {
    FirstHalf(l) + Centre(l) + SecondHalf(l)
  }

  /** What `emitCutPoints(curr, next, brickInfo)` returns. */
  function CutPointsOf(curr: Point, next: Point, info: BrickInfo, sqrt: real -> real): seq<Point>
    requires IsSqrt(sqrt) && info.brickLength > 0.0
  {
    match LayoutOf(curr, next, info, sqrt)
    case None => []
    case Some(l) => CutPoints(l)
  }

  /** `emitCutPoints`: the joint positions along the edge from `next` to
      `curr`. Edges no longer than one brick get none. Longer ones get the
      cuts of the first loop, from `next` toward the midpoint, then the
      midpoint when it is cut, then the cuts of the second loop, from the
      midpoint back to `curr`. `brickLength` must be positive: with zero
      the source's step count is infinite and its first loop never ends. */
  method EmitCutPoints(curr: Point, next: Point, brickInfo: BrickInfo, sqrt: real -> real)
    returns (result: seq<Point>)
    requires IsSqrt(sqrt) && brickInfo.brickLength > 0.0
    ensures result == CutPointsOf(curr, next, brickInfo, sqrt)
  {
    var layout := LayoutOf(curr, next, brickInfo, sqrt);
    if layout.None? {
      return [];
    }
    var l := layout.value;
    result := EmitFirstHalf(l);
    if l.addMidPoint {
      result := result + [l.mid];
    }
    var second := EmitSecondHalf(l);
    result := result + second;
  }

  /** The first loop of `emitCutPoints`, walking from `next` toward the
      midpoint. */
  method EmitFirstHalf(l: Layout) returns (result: seq<Point>)
    ensures result == FirstHalf(l)
  {
    var mid, n, steps, addMidPoint := l.mid, l.n, l.steps as int, l.addMidPoint;
    var keystoneWidth, brickInfo := l.info.brickWidth, l.info;
    var x1, y1 := l.next.x, l.next.y;
    result := [];
    var i := 0;
    while i < steps + 1
      invariant 0 <= i <= steps + 1
      invariant result == FirstHalf(l)[..i]
    {
      var p;
      if i == steps && !addMidPoint {
        var xp := mid.x - (keystoneWidth * n.x);
        var yp := mid.y - (keystoneWidth * n.y);
        p := Point(xp, yp);
      } else {
        var delta := i as real * (brickInfo.brickLength + brickInfo.mortarThickness);
        var xp := delta * n.x;
        var yp := delta * n.y;
        p := Point(xp + x1, yp + y1);
      }
      assert p == ForwardCut(l, i);
      PrefixStep(FirstHalf(l), i);
      result := result + [p];
      i := i + 1;
    }
    assert FirstHalf(l)[..steps + 1] == FirstHalf(l);
  }

  /** The second loop of `emitCutPoints`, walking from the midpoint back to
      `curr`. */
  method EmitSecondHalf(l: Layout) returns (result: seq<Point>)
    ensures result == SecondHalf(l)
  {
    var mid, n, steps, addMidPoint := l.mid, l.n, l.steps as int, l.addMidPoint;
    var keystoneWidth, brickInfo := l.info.brickWidth, l.info;
    var x2, y2 := l.curr.x, l.curr.y;
    result := [];
    var i := steps;
    while i > -1
      invariant -1 <= i <= steps
      invariant result == SecondHalf(l)[..steps - i]
    {
      var p;
      if i == steps && !addMidPoint {
        var xp := mid.x + (keystoneWidth * n.x);
        var yp := mid.y + (keystoneWidth * n.y);
        p := Point(xp, yp);
      } else {
        var delta := i as real * (brickInfo.brickLength + brickInfo.mortarThickness);
        var x := delta * n.x;
        var y := delta * n.y;
        p := Point(x2 - x, y2 - y);
      }
      assert p == BackwardCut(l, i);
      PrefixStep(SecondHalf(l), steps - i);
      result := result + [p];
      i := i - 1;
    }
    assert SecondHalf(l)[..steps + 1] == SecondHalf(l);
  }

  // ---------------------------------------------------------------------
  // What the cuts satisfy

  /** An edge gets `steps + 1` cuts from each loop, and one more exactly
      when its midpoint is cut. */
  lemma CutCount(l: Layout)
    ensures |CutPoints(l)| == 2 * (l.steps + 1) + (if l.addMidPoint then 1 else 0)
  {
  }

  /** `s`, the floor of `h / b`, counts the whole `b`s in `h`: less than
      one `b` is left over. */
  lemma FloorBounds(h: real, b: real, s: int)
    requires b > 0.0 && s == (h / b).Floor
    ensures 0.0 <= h - s as real * b < b
  {
    var q := h / b;
    assert q * b == h;
    var below := Mul(q - s as real, b);
    var above := Mul(s as real + 1.0 - q, b);
    assert below == q * b - s as real * b;
    assert above == b - (q * b - s as real * b);
  }

  /** The facts about a course the properties below rest on: `n` is a
      unit vector along the edge, `mid` is its midpoint, and an edge
      without whole bricks has its midpoint cut. */
  predicate Aligned(l: Layout) {
    && l.mid == MidPoint(l.curr, l.next)
    && SqNorm(l.n) == 1.0
    && Cross(Sub(l.curr, l.next), l.n) == 0.0
    && (l.steps == 0 ==> l.addMidPoint)
  }

  /** Every layout `LayoutOf` builds is aligned. */
  lemma CourseAligned(l: Layout, sqrt: real -> real)
    requires IsSqrt(sqrt) && Course(l, sqrt)
    ensures Aligned(l)
  {
  }

  /** `emitCutPoints` returns nothing exactly when the edge is no longer
      than one brick. */
  lemma EmitEmpty(curr: Point, next: Point, info: BrickInfo, sqrt: real -> real)
    requires IsSqrt(sqrt) && info.brickLength > 0.0
    ensures CutPointsOf(curr, next, info, sqrt) == [] <==> Len(curr, next, sqrt) <= info.brickLength
  {
    match LayoutOf(curr, next, info, sqrt)
    case None =>
    case Some(l) => CutCount(l);
  }

  /** Cut `k` of a layout: the first loop's cuts up to index `steps`, then
      the midpoint when it is cut, then the second loop's cuts, whose loop
      index `N - 1 - k` counts back from `curr`. */
  lemma CutAt(l: Layout, k: int)
    requires 0 <= k < |CutPoints(l)|
    ensures k <= l.steps ==> CutPoints(l)[k] == ForwardCut(l, k)
    ensures l.addMidPoint && k == l.steps + 1 ==> CutPoints(l)[k] == l.mid
    ensures k > l.steps + (if l.addMidPoint then 1 else 0) ==>
      CutPoints(l)[k] == BackwardCut(l, |CutPoints(l)| - 1 - k)
  {
    var c := if l.addMidPoint then 1 else 0;
    if k > l.steps + c {
      assert CutPoints(l)[k] == SecondHalf(l)[k - (l.steps + 1 + c)];
    }
  }

  /** The cuts start at `next` and end at `curr`: the keystone rule never
      moves an end, because an edge with `steps == 0` has its midpoint
      cut. */
  lemma CutEnds(l: Layout)
    requires Aligned(l)
    ensures CutPoints(l)[0] == l.next
    ensures CutPoints(l)[|CutPoints(l)| - 1] == l.curr
  {
    CutAt(l, 0);
    CutAt(l, |CutPoints(l)| - 1);
  }

  /** In terms of `emitCutPoints`' own arguments: a non-empty result
      starts at `next` and ends at `curr`. */
  lemma EmitEnds(curr: Point, next: Point, info: BrickInfo, sqrt: real -> real)
    requires IsSqrt(sqrt) && info.brickLength > 0.0
    ensures var cp := CutPointsOf(curr, next, info, sqrt);
      |cp| > 0 ==> cp[0] == next && cp[|cp| - 1] == curr
  {
    match LayoutOf(curr, next, info, sqrt)
    case None =>
    case Some(l) =>
      CourseAligned(l, sqrt);
      CutEnds(l);
  }

  /** The cuts need not run in order from `next` to `curr`: `steps` counts
      whole brick lengths in half the edge, but the cuts are a pitch (brick
      and joint) apart, so on a long edge the first loop's last regular cut
      passes the midpoint. With the default bricks (width 1, joint 0.05)
      an edge of length 200 has 48 steps and a cut midpoint, and the cut
      before the midpoint lies 0.8 beyond it. */
  lemma CutsOvershoot(curr: Point, next: Point, info: BrickInfo, sqrt: real -> real)
    requires IsSqrt(sqrt)
    requires curr == Point(200.0, 0.0) && next == Origin && info == MakeBrickInfo(1.0, 0.75, 0.05)
    ensures var cp := CutPointsOf(curr, next, info, sqrt);
      && |cp| == 99
      && cp[48] == Point(100.8, 0.0) && cp[49] == Point(100.0, 0.0) && cp[50] == Point(99.2, 0.0)
  {
    OvershootLayout(curr, next, info, sqrt);
    LaidOut(curr, next, info, sqrt);
    var l := LayoutOf(curr, next, info, sqrt).value;
    OvershootFrame(l, sqrt);
    OvershootCuts(l);
  }

  /** The midpoint and unit vector `OvershootLayout` gives, as points. */
  lemma OvershootFrame(l: Layout, sqrt: real -> real)
    requires IsSqrt(sqrt)
    requires l.mid == MidPoint(Point(200.0, 0.0), Origin)
    requires l.n == Normalize(Sub(Point(200.0, 0.0), Origin), sqrt)
    ensures l.mid == Point(100.0, 0.0) && l.n == Point(1.0, 0.0)
  {
    OvershootMid();
    OvershootDirection(sqrt);
  }

  /** The cuts of an edge long enough for bricks are those of its layout. */
  lemma LaidOut(curr: Point, next: Point, info: BrickInfo, sqrt: real -> real)
    requires IsSqrt(sqrt) && info.brickLength > 0.0
    requires LayoutOf(curr, next, info, sqrt).Some?
    ensures CutPointsOf(curr, next, info, sqrt) == CutPoints(LayoutOf(curr, next, info, sqrt).value)
  {
  }

  /** What `LayoutOf` records for the edge of `CutsOvershoot`. */
  lemma OvershootLayout(curr: Point, next: Point, info: BrickInfo, sqrt: real -> real)
    requires IsSqrt(sqrt)
    requires curr == Point(200.0, 0.0) && next == Origin && info == MakeBrickInfo(1.0, 0.75, 0.05)
    ensures var r := LayoutOf(curr, next, info, sqrt);
      && r.Some?
      && r.value.curr == curr && r.value.next == next && r.value.info == info
      && r.value.mid == MidPoint(Point(200.0, 0.0), Origin)
      && r.value.n == Normalize(Sub(Point(200.0, 0.0), Origin), sqrt)
      && r.value.steps == 48 && r.value.addMidPoint
  {
    OvershootLength(sqrt);
    OvershootSteps();
  }

  /** The midpoint of the edge of `CutsOvershoot`. */
  lemma OvershootMid()
    ensures MidPoint(Point(200.0, 0.0), Origin) == Point(100.0, 0.0)
  {
  }

  /** The edge of `CutsOvershoot` is 200 long. */
  lemma OvershootLength(sqrt: real -> real)
    requires IsSqrt(sqrt)
    ensures Len(Point(200.0, 0.0), Origin, sqrt) == 200.0
  {
    LenUnique(Point(200.0, 0.0), Origin, 200.0, sqrt);
  }

  /** The edge of `CutsOvershoot` runs along the x axis. */
  lemma OvershootDirection(sqrt: real -> real)
    requires IsSqrt(sqrt)
    ensures Normalize(Sub(Point(200.0, 0.0), Origin), sqrt) == Point(1.0, 0.0)
  {
    var v := Sub(Point(200.0, 0.0), Origin);
    assert v == Point(200.0, 0.0);
    OvershootMagnitude(sqrt);
    AlongX(v, Normalize(v, sqrt), 200.0);
  }

  /** The vector of the edge of `CutsOvershoot` is 200 long. */
  lemma OvershootMagnitude(sqrt: real -> real)
    requires IsSqrt(sqrt)
    ensures Magnitude(Point(200.0, 0.0), sqrt) == 200.0
  {
    SqInjective(Magnitude(Point(200.0, 0.0), sqrt), 200.0);
  }

  /** A vector parallel to `(200, 0)` whose dot product with it is 200 is
      the unit vector along the x axis. */
  lemma AlongX(v: Point, n: Point, m: real)
    requires v == Point(200.0, 0.0) && m == 200.0
    requires Cross(v, n) == 0.0 && Dot(v, n) == m
    ensures n == Point(1.0, 0.0)
  {
  }

  /** Half of the edge of `CutsOvershoot` holds 48 whole bricks and leaves
      more than half a brick over. */
  lemma OvershootSteps()
    ensures Steps(100.0, 2.05) == 48
    ensures Remainder(100.0, 2.05, 48) > 2.05 / 2.0
  {
    FloorBounds(100.0, 2.05, (100.0 / 2.05).Floor);
  }

  /** The cuts around the midpoint of the layout of `CutsOvershoot`. */
  lemma OvershootCuts(l: Layout)
    requires l.curr == Point(200.0, 0.0) && l.next == Origin && l.info == MakeBrickInfo(1.0, 0.75, 0.05)
    requires l.mid == Point(100.0, 0.0) && l.n == Point(1.0, 0.0) && l.steps == 48 && l.addMidPoint
    ensures |CutPoints(l)| == 99
    ensures CutPoints(l)[48] == Point(100.8, 0.0) && CutPoints(l)[49] == Point(100.0, 0.0)
    ensures CutPoints(l)[50] == Point(99.2, 0.0)
  {
    CutCount(l);
    CutAt(l, 48);
    CutAt(l, 49);
    CutAt(l, 50);
  }

  /** Cut `k` and cut `N - 1 - k` mirror each other about the midpoint:
      they sum to `curr + next`. */
  lemma CutMirror(l: Layout, k: int)
    requires Aligned(l)
    requires 0 <= k < |CutPoints(l)|
    ensures Add(CutPoints(l)[k], CutPoints(l)[|CutPoints(l)| - 1 - k]) == Add(l.curr, l.next)
  {
    var j := |CutPoints(l)| - 1 - k;
    CutAt(l, k);
    CutAt(l, j);
    if k <= l.steps {
      MirrorPair(l, k);
    } else if j <= l.steps {
      MirrorPair(l, j);
    }
  }

  /** The `i`-th cuts of the two loops are mirror images about the
      midpoint, keystones included. */
  lemma MirrorPair(l: Layout, i: int)
    requires l.mid == MidPoint(l.curr, l.next)
    ensures Add(ForwardCut(l, i), BackwardCut(l, i)) == Add(l.curr, l.next)
  {
  }

  /** Every cut lies on the line of the edge. */
  lemma CutOnEdge(l: Layout, k: int)
    requires Aligned(l)
    requires 0 <= k < |CutPoints(l)|
    ensures OnLine(CutPoints(l)[k], Line(l.next, l.curr))
  {
    CutAt(l, k);
    if k <= l.steps {
      ForwardOnEdge(l, k);
    } else if l.addMidPoint && k == l.steps + 1 {
      OnEdgeBy(l, l.mid, 0.5, 0.0);
    } else {
      BackwardOnEdge(l, |CutPoints(l)| - 1 - k);
    }
  }

  lemma ForwardOnEdge(l: Layout, i: int)
    requires Aligned(l)
    ensures OnLine(ForwardCut(l, i), Line(l.next, l.curr))
  {
    if i == l.steps && !l.addMidPoint {
      ForwardKeystoneOnEdge(l, i);
    } else {
      ForwardRegularOnEdge(l, i);
    }
  }

  lemma BackwardOnEdge(l: Layout, i: int)
    requires Aligned(l)
    ensures OnLine(BackwardCut(l, i), Line(l.next, l.curr))
  {
    if i == l.steps && !l.addMidPoint {
      BackwardKeystoneOnEdge(l, i);
    } else {
      BackwardRegularOnEdge(l, i);
    }
  }

  /** The first loop's keystone, `brickWidth` before the midpoint, lies on
      the edge. */
  lemma ForwardKeystoneOnEdge(l: Layout, i: int)
    requires Aligned(l) && i == l.steps && !l.addMidPoint
    ensures OnLine(ForwardCut(l, i), Line(l.next, l.curr))
  {
    OnEdgeBy(l, ForwardCut(l, i), 0.5, -l.info.brickWidth);
  }

  /** A regular cut of the first loop, `i` pitches from `next`, lies on the
      edge. */
  lemma ForwardRegularOnEdge(l: Layout, i: int)
    requires Aligned(l) && !(i == l.steps && !l.addMidPoint)
    ensures OnLine(ForwardCut(l, i), Line(l.next, l.curr))
  {
    OnEdgeBy(l, ForwardCut(l, i), 0.0, i as real * Pitch(l.info));
  }

  /** The second loop's keystone, `brickWidth` past the midpoint, lies on
      the edge. */
  lemma BackwardKeystoneOnEdge(l: Layout, i: int)
    requires Aligned(l) && i == l.steps && !l.addMidPoint
    ensures OnLine(BackwardCut(l, i), Line(l.next, l.curr))
  {
    OnEdgeBy(l, BackwardCut(l, i), 0.5, l.info.brickWidth);
  }

  /** A regular cut of the second loop, `i` pitches back from `curr`, lies
      on the edge. */
  lemma BackwardRegularOnEdge(l: Layout, i: int)
    requires Aligned(l) && !(i == l.steps && !l.addMidPoint)
    ensures OnLine(BackwardCut(l, i), Line(l.next, l.curr))
  {
    OnEdgeBy(l, BackwardCut(l, i), 1.0, -(i as real * Pitch(l.info)));
  }

  /** A point `next + a * (curr - next) + b * n` lies on the edge. */
  lemma OnEdgeBy(l: Layout, p: Point, a: real, b: real)
    requires Aligned(l)
    requires Sub(p, l.next) == Add(Scale(a, Sub(l.curr, l.next)), Scale(b, l.n))
    ensures OnLine(p, Line(l.next, l.curr))
  {
    CrossComb(Sub(l.curr, l.next), l.n, a, b, Sub(p, l.next));
  }

  /** A combination of `v` and a vector parallel to it is parallel to it. */
  lemma CrossComb(v: Point, n: Point, a: real, b: real, w: Point)
    requires Cross(v, n) == 0.0
    requires w == Add(Scale(a, v), Scale(b, n))
    ensures Cross(v, w) == 0.0
  {
    assert Cross(v, w) == a * Cross(v, v) + b * Cross(v, n);
  }

  /** The regular cuts of the first loop lie `i` pitches from `next`. */
  lemma ForwardDistance(l: Layout, i: int)
    requires Aligned(l)
    requires 0 <= i <= l.steps && !(i == l.steps && !l.addMidPoint)
    ensures SqDist(l.next, ForwardCut(l, i)) == Sq(i as real * Pitch(l.info))
  {
    var d := i as real * Pitch(l.info);
    var w := Sub(ForwardCut(l, i), l.next);
    assert w == Scale(d, l.n);
    ScaledLength(d, l.n, w);
    assert SqDist(l.next, ForwardCut(l, i)) == SqNorm(w);
  }

  /** The regular cuts of the second loop lie `i` pitches from `curr`. */
  lemma BackwardDistance(l: Layout, i: int)
    requires Aligned(l)
    requires 0 <= i <= l.steps && !(i == l.steps && !l.addMidPoint)
    ensures SqDist(BackwardCut(l, i), l.curr) == Sq(i as real * Pitch(l.info))
  {
    var d := i as real * Pitch(l.info);
    var w := Sub(l.curr, BackwardCut(l, i));
    assert w == Scale(d, l.n);
    ScaledLength(d, l.n, w);
    assert SqDist(BackwardCut(l, i), l.curr) == SqNorm(w);
  }

  /** The keystone rule: when the midpoint is not cut, the last cut of each
      half lies `brickWidth` from the midpoint; when it is, the midpoint
      sits between the two halves. */
  lemma Keystone(l: Layout)
    requires Aligned(l)
    ensures !l.addMidPoint ==> SqDist(l.mid, ForwardCut(l, l.steps)) == Sq(l.info.brickWidth)
    ensures !l.addMidPoint ==> SqDist(l.mid, BackwardCut(l, l.steps)) == Sq(l.info.brickWidth)
    ensures l.addMidPoint ==> CutPoints(l)[l.steps + 1] == l.mid
  {
    var bw := l.info.brickWidth;
    if !l.addMidPoint {
      var w := Sub(ForwardCut(l, l.steps), l.mid);
      assert w == Scale(-bw, l.n);
      ScaledLength(-bw, l.n, w);
      assert SqDist(l.mid, ForwardCut(l, l.steps)) == SqNorm(w);
      var e := Sub(BackwardCut(l, l.steps), l.mid);
      assert e == Scale(bw, l.n);
      ScaledLength(bw, l.n, e);
      assert SqDist(l.mid, BackwardCut(l, l.steps)) == SqNorm(e);
    } else {
      CutAt(l, l.steps + 1);
    }
  }

  /** `d` times a unit vector is `|d|` long. */
  lemma ScaledLength(d: real, n: Point, w: Point)
    requires SqNorm(n) == 1.0 && w == Scale(d, n)
    ensures SqNorm(w) == Sq(d)
  {
    assert SqNorm(w) == Sq(d) * SqNorm(n);
  }

  /** Every pair of cuts mirrors about the midpoint. */
  lemma CutsMirrored(l: Layout)
    requires Aligned(l)
    ensures MirroredAbout(CutPoints(l), Add(l.curr, l.next))
  {
    forall k | 0 <= k < |CutPoints(l)|
      ensures Add(CutPoints(l)[k], CutPoints(l)[|CutPoints(l)| - 1 - k]) == Add(l.curr, l.next)
    {
      CutMirror(l, k);
    }
  }

  // ---------------------------------------------------------------------
  // traceBetween

  /** Element `k` and element `|s| - 1 - k` of `s` sum to `c`, for every
      `k`: `s` is symmetric about the point `c / 2`. */
  predicate MirroredAbout(s: seq<Point>, c: Point) {
    forall k :: 0 <= k < |s| ==> Add(s[k], s[|s| - 1 - k]) == c
  }

  /** What `traceBetween` returns: the midpoint of each consecutive pair. */
  function Between(points: seq<Point>): (r: seq<Point>)
    ensures |r| == if |points| == 0 then 0 else |points| - 1
  {
    if |points| == 0 then []
    else seq(|points| - 1, j requires 0 <= j < |points| - 1 => MidPoint(points[j], points[j + 1]))
  }

  /** `traceBetween`: the midpoints of consecutive points, which staggers
      one course of cuts against the next. */
  method TraceBetween(points: seq<Point>) returns (result: seq<Point>)
    ensures result == Between(points)
  {
    result := [];
    var j := 0;
    while j < |points| - 1
      invariant 0 <= j <= |Between(points)|
      invariant result == Between(points)[..j]
    {
      var curr := points[j];
      var next := points[j + 1];
      PrefixStep(Between(points), j);
      result := result + [MidPoint(curr, next)];
      j := j + 1;
    }
    assert Between(points)[..j] == Between(points);
  }

  /** Element `j` of `traceBetween(points)` is the coordinate-wise average
      of `points[j]` and `points[j + 1]`. */
  lemma BetweenAverages(points: seq<Point>, j: int)
    requires 0 <= j < |points| - 1
    ensures Add(Between(points)[j], Between(points)[j]) == Add(points[j], points[j + 1])
  {
    var m := Between(points)[j];
    assert Sub(m, points[j]) == Sub(points[j + 1], m);
  }

  /** `traceBetween` keeps a symmetric sequence symmetric about the same
      point, so the staggered course of an edge stays centred on it. */
  lemma {:induction false} BetweenMirrored(points: seq<Point>, c: Point)
    requires MirroredAbout(points, c)
    ensures MirroredAbout(Between(points), c)
  {
    forall k | 0 <= k < |Between(points)| {
      BetweenPair(points, c, k);
    }
  }

  /** Staggered point `k` and its partner from the other end sum to `c`:
      each is the average of a pair of points, and the two pairs are
      mirror images. */
  lemma BetweenPair(points: seq<Point>, c: Point, k: int)
    requires MirroredAbout(points, c) && 0 <= k < |points| - 1
    ensures Add(Between(points)[k], Between(points)[|Between(points)| - 1 - k]) == c
  {
    var n := |points|;
    var j := n - 2 - k;
    BetweenAverages(points, k);
    BetweenAverages(points, j);
    assert Add(points[k], points[n - 1 - k]) == c;
    assert Add(points[k + 1], points[n - 1 - (k + 1)]) == c;
    HalfSums(Between(points)[k], Between(points)[j], points[k], points[k + 1], points[j], points[j + 1], c);
  }

  /** If `2 m1 = a + b`, `2 m2 = a' + b'`, `a + b' = c` and `b + a' = c`,
      then `m1 + m2 = c`. */
  lemma HalfSums(m1: Point, m2: Point, a: Point, b: Point, a': Point, b': Point, c: Point)
    requires Add(m1, m1) == Add(a, b) && Add(m2, m2) == Add(a', b')
    requires Add(a, b') == c && Add(b, a') == c
    ensures Add(m1, m2) == c
  {
  }
}
