# Edge-pair analysis of the polygon splitter

This project models `EdgePair`, the component of the polygon splitter that
looks at two edges of a polygon's exterior ring. It covers four steps:

- It projects each edge's endpoints onto the other edge, through the point
  where the edges' supporting lines meet (the pivot).
- It splits the area between the two edges into up to three regions:
  triangle 1, the trapezoid and triangle 2.
- It walks the cumulative areas of those regions to find where a cut of the
  requested area falls.
- It runs the source's sanity check on the areas.

The geometry library is not modelled. Intersection of lines, projection,
polygon area and slicing are abstract functions held in a `Geometry.Kernel`
value. Every property holds for every kernel. Areas are exact `real`s.

Modules:

- `Geometry`: coordinates, segments, polygons and the kernel.
  `LineSegment.equalsTopo` is the library's documented equality: the same
  endpoints, in either orientation.
- `EdgePair`: the model of `EdgePair.java`.
  - The "invalid projection" sentinel is the `Invalid` constructor of
    `ProjectedVertex`.
  - `EdgePair` is a class. Its constructor assigns `projected0` and
    `projected1`, then overwrites each one when it is invalid.
  - `EdgePairSubpolygons` is a datatype, because all its fields are final.
  - `getCuts` is the method `GetCuts`. The source's `assert`s are Dafny
    `assert` statements, so they are proved.
- `CumulativeWalk`: a reference definition of "the first region whose
  cumulative area reaches the target", independent of the three-branch code.
- `EdgePairProperties`: lemmas that relate the walk to the reference
  definition, and the regions to the projections.
- `EdgePairFindings`: concrete inputs for the defects listed under Findings.
  It uses a concrete kernel with shoelace areas.

`getCuts` is modelled as written, not as its Javadoc describes it ("a list of 0, 1 or 2 possible cuts", `EdgePair.java:177`):

- `areaOutside1` and `areaOutside2` are read before the outside pieces are
  sliced off, so both are always 0.
- When the walk finds a cut and at most one segment lies between the edges,
  the outside piece is `null`, and the cut construction calls `union` on it.
  The method then throws `NullPointerException`.
- Otherwise the sanity check throws `IllegalStateException` exactly when the
  areas agree within 1e-5.
- In every remaining case the method returns an empty list.

The Javadoc at line 177 promises up to two cuts, and the TODO at line 271
leaves the second sweep direction unwritten. The block at lines 273-276 is
commented as a "sanity check", so it is meant to fire when the areas do not
add up. The model follows the code. `GetCutsCorrected` is the evidently
intended behaviour of the first sweep direction.

## Model

| member | source | states |
|---|---|---|
| `EdgePair.GetProjectedVertex` | src/main/java/de/incentergy/geometry/impl/EdgePair.java:67-70 | the vertex is INVALID exactly when the projection is null; otherwise it is that point, tagged with the edge it was projected onto, and it lies on that edge |
| `EdgePair.ProjectedVertex.IsOnEdge` | src/main/java/de/incentergy/geometry/impl/EdgePair.java:107-109 | only a valid vertex lies on an edge, so INVALID lies on none; a valid vertex lies on the edge it was projected onto |
| `EdgePair.ProjectWithFallback` | src/main/java/de/incentergy/geometry/impl/EdgePair.java:57-64 | the projection of edge A's endpoint onto B when valid, else that of edge B's endpoint onto A; valid exactly when either projection exists |
| `EdgePair.EdgePair.constructor` | src/main/java/de/incentergy/geometry/impl/EdgePair.java:49-65 | projected0 uses edgeA.p1 then edgeB.p0; projected1 uses edgeA.p0 then edgeB.p1; each is overwritten only when invalid |
| `EdgePair.EdgePair.GetSubpolygons` | src/main/java/de/incentergy/geometry/impl/EdgePair.java:72-74 | the regions carry the pair's edges and the kernel's areas; triangle 1 exists iff projected0 is valid, triangle 2 iff projected1 is valid |
| `EdgePair.Corner` | src/main/java/de/incentergy/geometry/impl/EdgePair.java:147-150 | a trapezoid corner is the projected vertex when it lies on the edge, else the edge's own endpoint |
| `EdgePair.MakeSubpolygons` | src/main/java/de/incentergy/geometry/impl/EdgePair.java:131-153 | the triangles exist exactly for valid projections; a missing triangle has area 0; the trapezoid's corners are taken per edge in the order edgeA.p0, edgeA.p1, edgeB.p0, edgeB.p1 |
| `EdgePair.ProjectedVertex.IsValid` | src/main/java/de/incentergy/geometry/impl/EdgePair.java:99-105 | valid exactly when the vertex is not the INVALID sentinel; `isNotValid` is its negation |
| `EdgePair.AreaOrZero` | src/main/java/de/incentergy/geometry/impl/EdgePair.java:138-139 | a missing (null) polygon has area 0; a present one has the kernel's area |
| `EdgePair.OutsideArea` | src/main/java/de/incentergy/geometry/impl/EdgePair.java:189-196 | the outside piece exists only when more than one segment lies on that side; its area is then that of the piece sliced off along the chord, else 0 |
| `EdgePair.EdgePairSubpolygons.GetTotalArea` | src/main/java/de/incentergy/geometry/impl/EdgePair.java:167-169 | the total is the sum of the three region areas in sweep order; with non-negative areas it is at least each region's area |
| `EdgePair.AlmostEqual` | src/main/java/de/incentergy/geometry/impl/EdgePair.java:281-284 | true exactly when the two values differ by less than 1e-5 in either direction |
| `EdgePair.Fraction` | src/main/java/de/incentergy/geometry/impl/EdgePair.java:206-208 | when the area needed is positive and at most the region's area, the divisor is positive and the fraction lies in (0, 1] |
| `EdgePair.EdgePairSubpolygons.LocateCut` | src/main/java/de/incentergy/geometry/impl/EdgePair.java:199-268 | no cut when the outside area already reaches the target; otherwise the cut region's cumulative area brackets the target; its area (the divisor) is positive; the fraction lies in (0, 1] and completes the target; with non-negative areas, no region exactly when the total falls short |
| `EdgePair.EdgePairSubpolygons.GetCuts` | src/main/java/de/incentergy/geometry/impl/EdgePair.java:179-279 | the outside areas are 0; NullPointerException exactly when a cut is found and at most one segment lies between the edges; otherwise IllegalStateException exactly when the total is within 1e-5 of the polygon's area; otherwise an empty list |
| `EdgePair.EdgePairSubpolygons.GetCutsCorrected` | src/main/java/de/incentergy/geometry/impl/EdgePair.java:179-279 | never throws NullPointerException; uses the sliced outside areas; throws only when the areas disagree; returns exactly the cut the walk locates, which completes the target with a fraction in (0, 1] |
| `CumulativeWalk.FirstReachIsFirst` | src/main/java/de/incentergy/geometry/impl/EdgePair.java:199-268 | the reference walk stops at the first region whose cumulative area reaches the target; every earlier cumulative total falls short; when it finds none, no prefix reaches the target |
| `CumulativeWalk.FirstReachFraction` | src/main/java/de/incentergy/geometry/impl/EdgePair.java:203-250 | in the region found, the region's area is positive and the share still needed lies in (0, 1] |
| `CumulativeWalk.FirstReachExists` | src/main/java/de/incentergy/geometry/impl/EdgePair.java:245-268 | with non-negative areas, a region is found exactly when the accumulated and region areas together reach the target |
| `CumulativeWalk.FractionInUnitInterval` | src/main/java/de/incentergy/geometry/impl/EdgePair.java:225-227 | a positive need no larger than the area gives a positive divisor and a quotient in (0, 1] |
| `EdgePairProperties.LocateCutIsFirstReach` | src/main/java/de/incentergy/geometry/impl/EdgePair.java:199-268 | the three-branch walk picks exactly the region of the reference walk, in the order triangle 1, trapezoid, triangle 2, with the same area still needed |
| `EdgePairProperties.TotalAreaIsSumOfRegions` | src/main/java/de/incentergy/geometry/impl/EdgePair.java:167-169 | the total area is the sum of the three region areas, a missing triangle adding 0 |
| `EdgePairProperties.CutTriangleExists` | src/main/java/de/incentergy/geometry/impl/EdgePair.java:203-253 | when the walk cuts into triangle 1 or triangle 2, that triangle is not null |
| `EdgePairProperties.EndZeroRegions` | src/main/java/de/incentergy/geometry/impl/EdgePair.java:57-151 | at the edgeA.p1 end: a projection onto B gives triangle 1 and the third corner; a fallback onto A gives triangle 1 and the second corner; with neither, no triangle 1 and both corners are the edges' own |
| `EdgePairProperties.EndOneRegions` | src/main/java/de/incentergy/geometry/impl/EdgePair.java:57-151 | the same at the edgeA.p0 end for triangle 2, the fourth corner and the first corner |
| `EdgePairProperties.NoProjectionTrapezoidOnly` | src/main/java/de/incentergy/geometry/impl/EdgePair.java:136-151 | with no valid projection, only the trapezoid exists; its corners are the four edge endpoints; it holds the whole total area |
| `EdgePairFindings.AdjacentPairCut` | src/main/java/de/incentergy/geometry/impl/EdgePair.java:218-243 | for the trapezoid (0,0) (4,0) (3,1) (1,1) with 1.5 requested, as written throws NullPointerException; corrected returns the trapezoid cut at fraction 0.5 |
| `EdgePairFindings.ConsistentAreas` | src/main/java/de/incentergy/geometry/impl/EdgePair.java:273-276 | for the same trapezoid with no cut inside it, as written throws IllegalStateException; corrected returns no cut |
| `EdgePairFindings.StaleOutsideAreaLocatesCut` | src/main/java/de/incentergy/geometry/impl/EdgePair.java:182-199 | with an outside piece of area 0.5 and 0.25 requested, the walk as written (outside area 0) places a cut in the trapezoid; with the sliced area it places none; the stale cut is then discarded by the empty return, so the returned outcome is unchanged on this input |
| `EdgePairFindings.OutsideAreaCounted` | src/main/java/de/incentergy/geometry/impl/EdgePair.java:189-199 | on that input the corrected search returns no cut and does not throw |

## Left out

- Second sweep direction: the source leaves it as a TODO (line 271), so neither `GetCuts` nor `GetCutsCorrected` performs it.
- Cut construction is not modelled: `pointAlong`, `isPointOnLineSegment`, the cut line, its length and the unions of the cut-away polygon. Only the `null` dereference of `polygonOutside1` that this code performs is modelled. The cuts found are recorded as a region and a fraction.
- The `(ProjectedVertex)` cast of a triangle corner (lines 210 and 252) is taken to succeed. It depends on the unseen `createTriangle`. The model proves that the triangle exists.
- The geometry library and the unseen `GeometryUtils` / `GeometryFactoryUtils` are abstract kernel functions. `slicePolygon` is taken never to return `null`.
- Floating point: areas and fractions are exact reals.
- `toString`, `serialVersionUID`, the getters `getTriangle1` / `getTrapezoid` / `getTriangle2` (these are datatype fields), and `Objects.requireNonNull` (edges are values and are never null).
- `src/main/java/Main.java` (HTTP fetch, JSON, WKT parsing, printing) and the greedy splitting driver are not part of this model.
- EdgePair.EdgePairSubpolygons.LocateCut: "no region when even the outside area plus the total falls short" is stated only for non-negative region areas. With a negative area, an earlier branch can fire anyway. The library's areas are never negative.

## Findings

| source | as written | input that shows it | evidently intended | confidence | as-written member | corrected member |
|---|---|---|---|---|---|---|
| src/main/java/de/incentergy/geometry/impl/EdgePair.java:218 | `polygonOutside1.union(...)` runs when `polygonOutside1` is `null`; this happens whenever at most one segment lies between the edges (also at lines 238-242 and 262-266) | trapezoid (0,0) (4,0) (3,1) (1,1), edges bottom and top, one segment on each side, 1.5 requested: NullPointerException | the cut-away polygon starts from the region itself when there is no outside piece | high (not executed) | `EdgePairFindings.AdjacentPairCut` | `EdgePair.EdgePairSubpolygons.GetCutsCorrected` |
| src/main/java/de/incentergy/geometry/impl/EdgePair.java:274-276 | throws when the areas agree within 1e-5 | the same trapezoid with 4.0 requested: IllegalStateException, although its only region is the whole polygon | throw when the areas disagree | high (not executed) | `EdgePairFindings.ConsistentAreas` | `EdgePair.EdgePairSubpolygons.GetCutsCorrected` |
| src/main/java/de/incentergy/geometry/impl/EdgePair.java:184-185 | the outside areas are read before the outside pieces are assigned (lines 191 and 195), so both are 0 | pentagon (0,0) (4,0) (4,1) (3,2) (1,2), bottom and top edges, two segments between them (piece of area 0.5), 0.25 requested: the walk places a cut in the trapezoid; that cut stays inside the method (the empty return at line 278 discards it), so the effect shows in the outcome only through the sanity check at line 274 | the areas of the sliced pieces | high (not executed) | `EdgePairFindings.StaleOutsideAreaLocatesCut` | `EdgePairFindings.OutsideAreaCounted` |
