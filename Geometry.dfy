/** The part of the 2-D geometry library that the edge-pair analysis consumes.

    Coordinates, segments and polygons are plain values.  Every computation the
    library performs (intersection of supporting lines, projection of a point,
    polygon area, slicing a polygon along a chord) is an abstract function held
    in a `Kernel` value, so the model makes no claim about geometric truth: every
    property proved about the edge-pair logic holds for every kernel.
 */
module Geometry {

  datatype Option<+T> = None | Some(value: T)

  /** A 2-D point (the z ordinate is never used). */
  datatype Coordinate = Coordinate(x: real, y: real)

  /** A directed segment from `p0` to `p1`, oriented as the exterior ring is traversed. */
  datatype LineSegment = LineSegment(p0: Coordinate, p1: Coordinate)

  /** A polygon given by the corners of its exterior ring, in ring order. */
  datatype Polygon = Polygon(ring: seq<Coordinate>)

  /** Topological equality of segments: the same two endpoints, in either orientation. */
  predicate EqualsTopo(s: LineSegment, t: LineSegment)
  {
    (s.p0 == t.p0 && s.p1 == t.p1) || (s.p0 == t.p1 && s.p1 == t.p0)
  }

  /** The polygon with corners a, b, c. */
  function CreateTriangle(a: Coordinate, b: Coordinate, c: Coordinate): Polygon
  {
    Polygon([a, b, c])
  }

  /** The quadrilateral with corners a, b, c, d, in that order. */
  function CreatePolygon(a: Coordinate, b: Coordinate, c: Coordinate, d: Coordinate): Polygon
  {
    Polygon([a, b, c, d])
  }

  /** The library calls, as abstract functions.
      - intersectionPoint(a, b): where the infinite lines through a and b meet; None when parallel.
      - projectedPoint(p, e, pivot): the point where the line through p and pivot meets segment e;
        None when it does not meet e (the projection is invalid).
      - area(p): the area of polygon p.
      - slicePolygon(p, u, v): the piece of p cut off by the chord from u to v.
   */
  datatype Kernel = Kernel(
    intersectionPoint: (LineSegment, LineSegment) -> Option<Coordinate>,
    projectedPoint: (Coordinate, LineSegment, Option<Coordinate>) -> Option<Coordinate>,
    area: Polygon -> real,
    slicePolygon: (Polygon, Coordinate, Coordinate) -> Polygon)
}
