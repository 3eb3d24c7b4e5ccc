# Brick coursing geometry

A model of the plane geometry behind a JSCAD brick-wall generator. For
every edge of a polygonal wall outline, the generator decides where the
mortar joints of one course of bricks are cut. It then hands boxes at
those positions to the solid-modelling library. This project models the
part that decides the positions and proves what those positions satisfy.

- **Geometry** (`geometry.dfy`):
  - `len`, `midPoint`, `normalize`, `normal` and `sqLineMagnitude`.
  - Paul Bourke's two-line `intersect`, with its three ways of returning
    `false`.
  - The segment-trimming projection `closestPointEx`, with its `-1`
    result.
- **Coursing** (`coursing.dfy`):
  - `makeBrickInfo`.
  - `emitCutPoints`, which lays cuts from both ends of an edge toward its
    midpoint and either cuts the midpoint or pulls the last cut of each
    half to one brick width from it (the keystone rule).
  - `traceBetween`, which staggers a course by taking the midpoints of
    consecutive cuts.
- **Offset** (`offset.dfy`): `traceOffset`, the outline moved inward by
  one brick width. Each of its vertices is the crossing of the two shifted
  edges that meet there.
- **Edges** (`edges.dfy`): the bookkeeping of `iterateEdges` in bricks.js:
  - the corner cut of each edge;
  - which vertices are checked for a miter, and the miter's joint count;
  - the winding/edge-parity rule that chooses between the raw cut points
    and their staggered midpoints.
- **Bricks1** (`bricks1.dfy`): the neighbour selection of `iterateEdges`
  in bricks1.js. The `intersect` of bricks1.js is the same computation as
  the one in bricks.js. It is modelled once, as `Geometry.Intersect`, and
  the rows citing bricks1.js below point at the lemmas about it.

How the JavaScript maps onto Dafny:

- Numbers are exact reals (`real`), so the model describes the idealised
  geometry, not IEEE doubles.
- `Math.sqrt` becomes a parameter `sqrt: real -> real` of every operation
  that needs a root. The precondition `IsSqrt(sqrt)` says it returns the
  non-negative square root of every non-negative argument.
- `Math.floor` is `.Floor`. `Math.ceil(q)` is `-((-q).Floor)`.
- The sentinels `false` (from `intersect`) and `-1` (from
  `closestPointEx`) become `None`. The TypeError the source raises when
  it destructures such a sentinel is a `None` that propagates out of the
  loop that raised it.
- The loops that build arrays with `push` are methods with loop
  invariants. Each is proved equal to a function that states what the
  loop computes, and the lemmas are about those functions.

## Model

| member | source | states |
|---|---|---|
| Geometry.SqLineMagnitude | bricks.js:312-314 | the squared length is never negative, and is positive exactly when the two points differ |
| Geometry.Magnitude | bricks.js:265-274 | the length `mag` used by `normalize` and `normal` is the non-negative root of the squared length, and is zero only for the zero vector |
| Geometry.Len | bricks.js:36-41 | `len` is non-negative, its square is the squared distance, and it is positive exactly when the points differ |
| Geometry.LenUnique | bricks.js:36-41 | any non-negative number whose square is the squared distance is `len` |
| Geometry.LenSymmetric | bricks.js:36-41 | `len(p, q) == len(q, p)` |
| Geometry.MidPoint | bricks.js:52-57 | the step from `curr` to the result equals the step from the result to `next` |
| Geometry.MidPointUnique | bricks.js:52-57 | the midpoint is the only point with that property, and swapping the arguments does not change it |
| Geometry.Normalize | bricks.js:265-268 | the result has unit length, is parallel to `v` and points the same way (its dot product with `v` is the length of `v`) |
| Geometry.NormalIsTurnedUnit | bricks.js:270-274 | `normal(v, offset)` is the unit vector of `v` turned a quarter to the left and scaled by `offset` |
| Geometry.NormalOrthogonal | bricks.js:270-274 | `normal(v, offset)` is perpendicular to `v` |
| Geometry.NormalLength | bricks.js:270-274 | `normal(v, offset)` has length `abs(offset)` |
| Geometry.NormalSide | bricks.js:270-274 | the cross product of `v` with `normal(v, offset)` is `offset * len(v)`: left of `v` for a positive offset, right for a negative one |
| Geometry.DenominatorIsCross | bricks.js:251 | the denominator is the cross product of the two line directions, zero exactly for parallel lines |
| Geometry.Intersect | bricks.js:246-263 | no contract of its own: Paul Bourke's `intersect`, with `false` as `None` (bricks1.js:53-68 is the same function); what it returns is stated by `IntersectNone`, `IntersectFree`, `IntersectEnforced`, `IntersectOnBoth` and `IntersectExactly` |
| Geometry.NonDegenerate | bricks1.js:55-60 | a non-zero denominator implies that neither line is a single point (the same tests as bricks.js:249-254) |
| Geometry.IntersectNone | bricks.js:246-263 | `intersect` returns `false` exactly when a line is a single point, the lines are parallel, or `enforceSegments` is set and `ua` or `ub` lies outside [0, 1]; bricks1.js:53-68 is the same function |
| Geometry.IntersectFree | bricks.js:256-262 | without `enforceSegments`, non-parallel lines give the point at parameter `ua` along the first line |
| Geometry.IntersectEnforced | bricks1.js:61-67 | with `enforceSegments`, the point at `ua` is returned only when both `ua` and `ub` lie in [0, 1] (the same test as bricks.js:260) |
| Geometry.Crossing | bricks.js:256-262 | the point at `ua` along the first line is the point at `ub` along the second |
| Geometry.AlongSegment | bricks.js:260 | the point at parameter `u` along a segment lies on the segment exactly when `u` lies in [0, 1] |
| Geometry.IntersectOnBoth | bricks1.js:61-67 | a returned point lies on both lines, and with `enforceSegments` on both segments (as for bricks.js:256-262) |
| Geometry.IntersectExactly | bricks1.js:53-68 | for non-parallel lines, a point on both lines is the one returned, unless `enforceSegments` is set and it lies off a segment, when `false` is returned |
| Geometry.ClosestPointEx | bricks.js:316-338 | `-1` exactly when the squared length is below `EPS_SQ`; otherwise the end is kept when `side` is set and the start is kept when it is not |
| Geometry.ClosestTrimmed | bricks.js:322-336 | when `EPS <= u <= 1`, the start (`side`) or the end (`!side`) is replaced by the projection of `p` |
| Geometry.ClosestOnSegment | bricks.js:316-338 | both ends of every returned segment lie on the original segment |
| Geometry.ClosestUnchanged | bricks.js:322-336 | the segment comes back unchanged exactly when `u < EPS` or `u > 1`, or when `u == 1` and the end is the one replaced |
| Geometry.ProjectionParamDot | bricks.js:322 | `u` times the squared length is the dot product of `p - start` with the segment direction |
| Geometry.FootPerpendicular | bricks.js:322-330 | the step from `p` to the new point is perpendicular to the segment |
| Geometry.FootIsNearest | bricks.js:322-330 | no point of the segment's line is closer to `p` than the new point |
| Geometry.FootLeavesStart | bricks.js:324-330 | when `u >= EPS`, the new point differs from the start |
| Geometry.FootAtEnd | bricks.js:327-330 | the new point is the end exactly when `u == 1` |
| Coursing.MakeBrickInfo | bricks.js:43-50 | the dimensions are recorded as given, and a brick is two widths plus one mortar joint long |
| Coursing.LayoutOf | bricks.js:59-80 | there are no cuts exactly when `len(curr, next) <= brickLength`; otherwise `steps = floor(halfway / brickLength)`, the midpoint is cut exactly when `remainder > brickLength / 2`, `mid` is the midpoint, `n` is the unit vector from `next` toward `curr`, and `curr`, `next` and the brick dimensions are kept as given |
| Coursing.Steps | bricks.js:74-77 | the remainder is at least 0 and below one brick length, and a positive `halfway` gives a non-negative count |
| Coursing.CourseAligned | bricks.js:72-80 | every layout built from an edge has `mid` at its midpoint and `n` a unit vector along it, and one with `steps == 0` cuts its midpoint |
| Coursing.ForwardCut | bricks.js:83-92 | no contract of its own: the cut one pass of the first loop pushes, the keystone or a regular cut; its promises are `ForwardDistance`, `ForwardOnEdge`, `MirrorPair` and `Keystone` |
| Coursing.BackwardCut | bricks.js:100-109 | no contract of its own: the cut one pass of the second loop pushes; its promises are `BackwardDistance`, `BackwardOnEdge`, `MirrorPair` and `Keystone` |
| Coursing.FirstHalf | bricks.js:82-93 | the first loop pushes `steps + 1` cuts |
| Coursing.SecondHalf | bricks.js:99-110 | the second loop pushes `steps + 1` cuts |
| Coursing.EmitFirstHalf | bricks.js:82-93 | the ascending loop builds the first half: regular cuts at `i * pitch` from `next`, with the keystone `mid - brickWidth * n` in place of the last one when the midpoint is not cut |
| Coursing.EmitSecondHalf | bricks.js:99-110 | the descending loop builds the second half, mirrored from `curr` |
| Coursing.EmitCutPoints | bricks.js:59-113 | `emitCutPoints` returns the first half, the midpoint when it is cut, then the second half |
| Coursing.LaidOut | bricks.js:59-113 | for an edge longer than one brick, `emitCutPoints` returns the cuts of the layout that lines 59-80 compute |
| Coursing.EmitEmpty | bricks.js:61-65 | the result is empty exactly when `len(curr, next) <= brickLength` |
| Coursing.CutCount | bricks.js:82-110 | a course has `2 * (steps + 1)` cuts, plus one when the midpoint is cut |
| Coursing.CutAt | bricks.js:82-110 | cut `k` is the first loop's cut `k`, then the midpoint, then the second loop's cut counted back from `curr` |
| Coursing.CutEnds | bricks.js:69-110 | the first cut is `next` and the last is `curr`; the keystone never replaces an end |
| Coursing.EmitEnds | bricks.js:59-110 | for every edge, a non-empty result of `emitCutPoints` starts at `next` and ends at `curr` |
| Coursing.CutsOvershoot | bricks.js:74-108 | for `curr = (200, 0)`, `next = (0, 0)` and `makeBrickInfo(1, 0.75, 0.05)` (the bricks `main` uses) there are 99 cuts, and cut 48 at `(100.8, 0)` lies beyond the midpoint cut 49 at `(100, 0)`: the cuts do not run in order from `next` to `curr` |
| Coursing.MirrorPair | bricks.js:88-108 | the first loop's cut `i` and the second loop's cut `i` sum to `curr + next`, regular or keystone |
| Coursing.CutMirror | bricks.js:82-110 | `result[k] + result[N - 1 - k] == curr + next` for every `k` |
| Coursing.CutsMirrored | bricks.js:82-110 | the whole course is symmetric about the midpoint of the edge |
| Coursing.CutOnEdge | bricks.js:80-110 | every cut lies on the line through `next` and `curr` |
| Coursing.ForwardOnEdge | bricks.js:82-93 | every cut of the first loop lies on the edge's line |
| Coursing.BackwardOnEdge | bricks.js:99-110 | every cut of the second loop lies on the edge's line |
| Coursing.ForwardDistance | bricks.js:88-91 | a regular cut `i` of the first loop lies at distance `i * (brickLength + mortarThickness)` from `next` |
| Coursing.BackwardDistance | bricks.js:105-108 | a regular cut `i` of the second loop lies at that distance from `curr` |
| Coursing.Keystone | bricks.js:83-103 | without a midpoint cut, the two keystone cuts lie one brick width from the midpoint; with one, the midpoint sits in the centre of the course |
| Coursing.Between | bricks.js:115-124 | `traceBetween` returns one point fewer than it is given, and none for an empty input |
| Coursing.TraceBetween | bricks.js:115-124 | the loop returns the midpoints of consecutive pairs, in order |
| Coursing.BetweenAverages | bricks.js:117-121 | element `j` is the average of `points[j]` and `points[j + 1]` |
| Coursing.BetweenMirrored | bricks.js:115-124 | staggering a course that is symmetric about a point keeps it symmetric about that point |
| Offset.PrevIndex | bricks.js:279-280 | the previous index is in range and is `(j - 1) mod n`, the last vertex for the first |
| Offset.NextIndex | bricks.js:281 | the next index is in range, the first vertex for the last |
| Offset.NextOfPrev | bricks.js:279-281 | the next of the previous vertex is the vertex itself |
| Offset.OffsetEdge | bricks.js:283-301 | no contract of its own: the edge moved sideways by `normal(v, offset)`; its promises are `OffsetEdgeDir` and `OnOffsetEdge` |
| Offset.OffsetVertex | bricks.js:279-303 | no contract of its own: the `intersect` of the two offset edges at vertex `j`; its promises are `OffsetVertexNone`, `OffsetVertexDistance` and `OffsetVertexExactly` |
| Offset.OffsetOf | bricks.js:276-307 | `traceOffset` returns exactly one entry per vertex |
| Offset.TraceOffset | bricks.js:276-307 | entry `j` is the `intersect` of the offset lines of the edges before and after vertex `j`, with wrap-around |
| Offset.OffsetCorner | bricks.js:279-303 | one pass of the loop computes entry `j` |
| Offset.OffsetEdgeDir | bricks.js:283-301 | an offset line runs parallel to its edge, in the same direction |
| Offset.OnOffsetEdge | bricks.js:283-301 | a point lies on an offset line exactly when its signed distance from the edge is `offset` |
| Offset.OffsetVertexNone | bricks.js:303 | entry `j` is `false` exactly when the two edges at vertex `j` are parallel |
| Offset.OffsetVertexDistance | bricks.js:283-303 | every entry that is present lies at signed distance `offset` from both edges at its vertex |
| Offset.OffsetVertexExactly | bricks.js:283-303 | for non-parallel edges, a point at signed distance `offset` from both is the entry |
| Edges.CornerCuts | bricks.js:182-191 | the first loop trims each edge at both ends by `closestPointEx`, or throws |
| Edges.CornerCutsCount | bricks.js:182-191 | `cornerCuts` gets exactly `points.length - 1` entries; the loop throws exactly when an edge has a missing offset vertex at either end or is shorter than `EPS` |
| Edges.CornerCut | bricks.js:183-190 | no contract of its own: one edge trimmed by `closestPointEx` at both ends, `None` where the source throws; its promises are `CornerCutThrows`, `CornerCutStart` and `CornerCutEnd` |
| Edges.CornerCutThrows | bricks.js:186-190 | one corner cut throws exactly when an offset vertex is `false` or the edge is shorter than `EPS` |
| Edges.CornerCutStart | bricks.js:189-190 | the start of a corner cut lies on its edge |
| Edges.CornerCutEnd | bricks.js:183-190 | the end of a corner cut lies on its edge (segment a-b), also after the start has been trimmed |
| Edges.MiterCorners | bricks.js:193-199 | the second loop checks for a miter at the vertices `MitredUpTo` lists |
| Edges.MitredExactly | bricks.js:193-197 | a vertex is checked exactly when it is interior (`1..points.length - 2`) and its corner is sharp, in increasing order |
| Edges.MiterIterations | bricks.js:153 | `acute`'s loop runs `it` times, where `it` whole bricks are strictly shorter than the shorter edge and `it + 1` bricks are not |
| Edges.UsesBetween | bricks.js:220-222 | no contract of its own: whether edge `i` is laid on `traceBetween(cp)` rather than `cp`; its promise is `ParityAlternates` |
| Edges.ParityAlternates | bricks.js:220-222 | adjacent edges make opposite choices between `cp` and `traceBetween(cp)`, and flipping `winding` flips every choice |
| Edges.LayEdge | bricks.js:214-222 | edge `i` lays bricks on the cut points of its corner cut, or on their midpoints when the parity rule says so |
| Edges.EdgeCourses | bricks.js:213-222 | the third loop lays every edge in order, and throws on a corner cut that is `-1` |
| Edges.EdgeCourseMirrored | bricks.js:216-222 | every edge's course is symmetric about the middle of its corner cut, the staggered ones included |
| Edges.EdgeCourseLength | bricks.js:219-222 | a staggered course has one point fewer than its cut points |
| Bricks1.At | bricks1.js:43-46 | `points[k]` is a point exactly when `k` is in range, and `undefined` otherwise |
| Bricks1.NeighboursOf | bricks1.js:43-46 | no contract of its own: the four points the ternaries pick for edge `i`; its promises are `NeighbourIndices` and `TwoVertices` |
| Bricks1.IterateEdges | bricks1.js:38-50 | exactly `len - 1` shapes are pushed, one per edge `0..len - 2`, with the neighbours the ternaries pick |
| Bricks1.NeighbourIndices | bricks1.js:43-46 | for `len >= 3`, edge `i` sees `points[(i - 1) mod len]`, `points[i]`, `points[i + 1]` and `points[(i + 2) mod len]`, all in range |
| Bricks1.TwoVertices | bricks1.js:46 | with two vertices the one edge's `finl` is `undefined` |

## Left out

- The JSCAD calls are not modelled: `extrudeLinear`, `polygon`, `subtract`, `cuboid`, `translate`, `rotate`, `offset`, `line` and `colorize`. They belong to a foreign solid-modelling library.
- `zeroedCuboid` and `layOnLine` (bricks.js:126-137) and `traceBounds` (bricks1.js:8-36) only build JSCAD geometry. So do the two inner loops of the third loop of `iterateEdges` (bricks.js:224-234), the miter block (bricks.js:201-207) and the final subtraction (bricks.js:237). The model stops at the point lists those receive.
- `main` in both files is not modelled. It is scene assembly over fixed sample polygons.
- `getAngle` (bricks.js:340-347) needs `Math.atan2`. The test `getAngle(...) < 90` is the predicate parameter `sharp` of `Edges.Mitred`.
- `acute` (bricks.js:139-173) mixes lengths with solid construction. Only its iteration count is modelled, as `Edges.MiterIterations`.
- Edges.MiterCorners: reduced to the indices at which `acute` is called; the calls themselves and the miter length are not modelled.
- Bricks1.IterateEdges: reduced to the four points each `traceBounds` call receives.
- IEEE double rounding is not modelled: the model works over exact reals. The `EPS` tests of `closestPointEx` are exact comparisons against the constants.
- `Math.sqrt` is a parameter constrained by `IsSqrt`, not a defined function.
- Offset.TraceOffset: requires that no two consecutive vertices coincide, the closing edge included (`ProperPolygon`). In the source such an edge makes `normal` divide by zero, and its offset vertices become NaN.
- Coursing.EmitCutPoints: requires `brickLength > 0`. With a zero brick length the source divides by zero, and its first loop does not end.
- Coursing.EmitCutPoints: does not claim that the cuts run in order from `next` to `curr`, nor that the keystone lies beyond the regular cut before it. `steps` counts whole brick lengths in half the edge (bricks.js:74), but regular cuts are a brick length plus a mortar joint apart (bricks.js:88 and 105). So on a long edge the first loop's cuts pass the midpoint, as `Coursing.CutsOvershoot` shows for an edge of length 200. On an edge of length 94.3 with the same bricks, the keystone at 46.15 from `next` comes before regular cut 22 at 46.2.
- Geometry.Normal: has no contract of its own. Its promises are the lemmas `NormalOrthogonal`, `NormalLength`, `NormalSide` and `NormalIsTurnedUnit`.
- Edges.EdgeCourses: `winding` is a `bool` standing for the truthiness of the number `i % 2` that `main` passes in.
- The `showMortarSlices` parameter of `iterateEdges` is never read by the source, so it is not modelled.
