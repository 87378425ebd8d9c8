/** Concrete inputs on which the cut search as written departs from what it is
    evidently meant to do, passed to both `GetCuts` (as written) and
    `GetCutsCorrected`.

    The inputs use one concrete kernel: areas by the shoelace formula, slicing
    by taking the run of ring corners from one chord end to the other, and no
    pivot (every edge pair below is parallel, so no projection is valid and
    only the trapezoid exists).
 */
module EdgePairFindings {

  import opened Geometry
  import opened EdgePair

  /** Twice the signed area contributed by the corners of `ring`, the last one
      closing back to `first`. */
  function ShoelaceSum(ring: seq<Coordinate>, first: Coordinate): real
  {
    if ring == [] then 0.0
    else
      var next := if |ring| == 1 then first else ring[1];
      ring[0].x * next.y - next.x * ring[0].y + ShoelaceSum(ring[1..], first)
  }

  function RingArea(ring: seq<Coordinate>): (a: real)
    ensures a >= 0.0
  {
    if ring == [] then 0.0
    else
      var twice := ShoelaceSum(ring, ring[0]);
      (if twice < 0.0 then -twice else twice) / 2.0
  }

  function IndexOf(ring: seq<Coordinate>, c: Coordinate): (i: nat)
    ensures i <= |ring|
    ensures i < |ring| ==> ring[i] == c
  {
    if ring == [] then 0
    else if ring[0] == c then 0
    else 1 + IndexOf(ring[1..], c)
  }

  /** The corners of `p` from `u` to `v` in ring order (wrapping around). */
  function SliceRing(p: Polygon, u: Coordinate, v: Coordinate): Polygon
  {
    var i := IndexOf(p.ring, u);
    var j := IndexOf(p.ring, v);
    if i < |p.ring| && j < |p.ring| then
      if i <= j then Polygon(p.ring[i..j + 1]) else Polygon(p.ring[i..] + p.ring[..j + 1])
    else p
  }

  const ParallelKernel: Kernel := Kernel(
    (a, b) => None,
    (point, edge, pivot) => None,
    (p: Polygon) => RingArea(p.ring),
    SliceRing)

  /** A trapezoid whose bottom and top sides are parallel: (0,0) (4,0) (3,1) (1,1), area 3. */
  const Quad: Polygon := Polygon([Coordinate(0.0, 0.0), Coordinate(4.0, 0.0), Coordinate(3.0, 1.0), Coordinate(1.0, 1.0)])
  const QuadBottom: LineSegment := LineSegment(Coordinate(0.0, 0.0), Coordinate(4.0, 0.0))
  const QuadTop: LineSegment := LineSegment(Coordinate(3.0, 1.0), Coordinate(1.0, 1.0))

  /** The same trapezoid, stretched to height 2, with a corner (4,1) inserted on
      the right, so that two segments lie between bottom and top on that side:
      (0,0) (4,0) (4,1) (3,2) (1,2), area 6.5. */
  const Pentagon: Polygon := Polygon([Coordinate(0.0, 0.0), Coordinate(4.0, 0.0), Coordinate(4.0, 1.0),
                                      Coordinate(3.0, 2.0), Coordinate(1.0, 2.0)])
  const PentagonTop: LineSegment := LineSegment(Coordinate(3.0, 2.0), Coordinate(1.0, 2.0))

  lemma QuadArea()
    ensures RingArea(Quad.ring) == 3.0
  {
    var r := Quad.ring;
    assert ShoelaceSum(r[3..], r[0]) == 0.0;
    assert ShoelaceSum(r[2..], r[0]) == 2.0;
    assert ShoelaceSum(r[1..], r[0]) == 6.0;
  }

  lemma PentagonAreas()
    ensures RingArea(Pentagon.ring) == 6.5
    ensures SliceRing(Pentagon, Coordinate(4.0, 0.0), Coordinate(3.0, 2.0)).ring == Pentagon.ring[1..4]
    ensures RingArea(Pentagon.ring[1..4]) == 0.5
    ensures RingArea(CreatePolygon(QuadBottom.p0, QuadBottom.p1, PentagonTop.p0, PentagonTop.p1).ring) == 6.0
  {
    var r := Pentagon.ring;
    assert ShoelaceSum(r[4..], r[0]) == 0.0;
    assert ShoelaceSum(r[3..], r[0]) == 4.0;
    assert ShoelaceSum(r[2..], r[0]) == 9.0;
    assert ShoelaceSum(r[1..], r[0]) == 13.0;
    assert IndexOf(r, r[1]) == 1;
    assert IndexOf(r[1..], r[3]) == 2 by {
      assert IndexOf(r[1..][1..], r[3]) == 1;
    }
    var t := r[1..4];
    assert ShoelaceSum(t[2..], t[0]) == 3.0 * 0.0 - 4.0 * 2.0;
    assert ShoelaceSum(t[1..], t[0]) == 5.0 - 8.0;
    assert ShoelaceSum(t, t[0]) == 1.0;
    var q := CreatePolygon(QuadBottom.p0, QuadBottom.p1, PentagonTop.p0, PentagonTop.p1).ring;
    assert ShoelaceSum(q[3..], q[0]) == 0.0;
    assert ShoelaceSum(q[2..], q[0]) == 4.0;
    assert ShoelaceSum(q[1..], q[0]) == 12.0;
  }

  /** The regions of the trapezoid's bottom and top edges: the trapezoid alone,
      which is the whole polygon. */
  lemma QuadRegions()
    ensures var s := MakeSubpolygons(ParallelKernel, QuadBottom, QuadTop, Invalid, Invalid);
      && s.WellFormed(ParallelKernel)
      && s.trapezoid == Quad && s.GetTotalArea() == 3.0 && ParallelKernel.area(Quad) == 3.0
      && s.LocateCut(0.0, 1.5) == Some(CutSite(Trapezoid, 0.5))
      && s.LocateCut(0.0, 4.0) == None
  {
    QuadArea();
    var s := MakeSubpolygons(ParallelKernel, QuadBottom, QuadTop, Invalid, Invalid);
    assert s.trapezoid == Quad;
    assert s.trapezoidArea == 3.0;
  }

  /** Edges adjacent through a single segment: the walk finds the cut in the
      trapezoid, and the code as written then dereferences the missing outside
      piece; the corrected search returns that cut, halfway across. */
  method AdjacentPairCut() returns (asWritten: CutsOutcome, corrected: CutsOutcome)
    ensures asWritten == NullPointerException
    ensures corrected == Returned([CutSite(Trapezoid, 0.5)])
  {
    var pair := new EdgePair(ParallelKernel, QuadBottom, QuadTop);
    var s := pair.GetSubpolygons(ParallelKernel);
    QuadRegions();
    assert s == MakeSubpolygons(ParallelKernel, QuadBottom, QuadTop, Invalid, Invalid);
    asWritten := s.GetCuts(ParallelKernel, Quad, 1.5, 1, 1);
    corrected := s.GetCutsCorrected(ParallelKernel, Quad, 1.5, 1, 1);
  }

  /** The regions of the pair make up the whole trapezoid and no cut is
      requested within it: the sanity check as written throws because the
      areas agree; the corrected search returns no cut. */
  method ConsistentAreas() returns (asWritten: CutsOutcome, corrected: CutsOutcome)
    ensures asWritten == IllegalStateException
    ensures corrected == Returned([])
  {
    var pair := new EdgePair(ParallelKernel, QuadBottom, QuadTop);
    var s := pair.GetSubpolygons(ParallelKernel);
    QuadRegions();
    assert s == MakeSubpolygons(ParallelKernel, QuadBottom, QuadTop, Invalid, Invalid);
    asWritten := s.GetCuts(ParallelKernel, Quad, 4.0, 1, 1);
    corrected := s.GetCutsCorrected(ParallelKernel, Quad, 4.0, 1, 1);
  }

  /** Two segments lie between bottom and top, cutting off a piece of area 0.5
      beside the pair; 0.25 is requested.  The walk as written starts from an
      outside area of 0 and places a cut in the trapezoid; with the sliced
      area, the requested area is already exceeded outside the pair.  On this
      input the stale cut stays inside `GetCuts`, which still returns an empty
      list; the stale areas reach its outcome only through the sanity check. */
  lemma StaleOutsideAreaLocatesCut()
    ensures var s := MakeSubpolygons(ParallelKernel, QuadBottom, PentagonTop, Invalid, Invalid);
      && OutsideArea(ParallelKernel, Pentagon, 2, QuadBottom.p1, PentagonTop.p0) == 0.5
      && s.LocateCut(0.0, 0.25).Some? && s.LocateCut(0.0, 0.25).value.region == Trapezoid
      && s.LocateCut(0.5, 0.25).None?
  {
    PentagonAreas();
  }

  /** The same input through the corrected search: no cut, and no exception,
      since the outside piece and the regions together make up the pentagon. */
  method OutsideAreaCounted() returns (corrected: CutsOutcome)
    ensures corrected == Returned([])
  {
    var pair := new EdgePair(ParallelKernel, QuadBottom, PentagonTop);
    var s := pair.GetSubpolygons(ParallelKernel);
    PentagonAreas();
    corrected := s.GetCutsCorrected(ParallelKernel, Pentagon, 0.25, 2, 1);
  }
}
