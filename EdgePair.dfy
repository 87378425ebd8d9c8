/** A pair of edges of a polygon's exterior ring, both directed as the ring is
    traversed, and the regions between them in which a cut can lie.

    Looking from edge A towards edge B, the area between the two edges is
    split into up to three regions:

      edgeA.p0 .______________________________. edgeA.p1
              /|                              |\
             / |  T2        trapezoid         | \  T1
            /__|______________________________|__\
      edgeB.p1   projected1        projected0    edgeB.p0

    - triangle 1 (T1), at the edgeA.p1 / edgeB.p0 end, exists when projected0 is valid;
    - the trapezoid always exists;
    - triangle 2 (T2), at the edgeA.p0 / edgeB.p1 end, exists when projected1 is valid.
 */
module EdgePair {

  import opened Geometry
  import opened CumulativeWalk

  /** A point projected onto one of the two edges, tagged with that edge, or the
      single "no projection" value. */
  datatype ProjectedVertex = Invalid | Projected(point: Coordinate, edge: LineSegment)
  {
    predicate IsValid()
      ensures IsValid() <==> this != Invalid
    {
      Projected?
    }

    /** Only a valid vertex lies on an edge, and only on the edge it was projected onto. */
    predicate IsOnEdge(e: LineSegment)
      ensures IsOnEdge(e) ==> IsValid()
      ensures IsValid() && e == edge ==> IsOnEdge(e)
    {
      Projected? && EqualsTopo(edge, e)
    }
  }

  /** Projects `point` onto `edge` through the pivot; the result is tagged with `edge`. */
  function GetProjectedVertex(k: Kernel, point: Coordinate, edge: LineSegment, pivot: Option<Coordinate>): (pv: ProjectedVertex)
    ensures pv.IsValid() <==> k.projectedPoint(point, edge, pivot).Some?
    ensures pv.IsValid() ==> pv.point == k.projectedPoint(point, edge, pivot).value && pv.edge == edge
    ensures pv.IsOnEdge(edge) <==> pv.IsValid()
  {
    match k.projectedPoint(point, edge, pivot)
    case Some(c) => Projected(c, edge)
    case None => Invalid
  }

  /** The projection used on one end of the pair: `endOfA` projected onto edge B,
      or, when that is invalid, `endOfB` projected onto edge A. */
  function ProjectWithFallback(k: Kernel, edgeA: LineSegment, edgeB: LineSegment, endOfA: Coordinate, endOfB: Coordinate): (pv: ProjectedVertex)
    ensures var pivot := k.intersectionPoint(edgeA, edgeB);
      var ontoB := k.projectedPoint(endOfA, edgeB, pivot);
      var ontoA := k.projectedPoint(endOfB, edgeA, pivot);
      && (pv.IsValid() <==> ontoB.Some? || ontoA.Some?)
      && (ontoB.Some? ==> pv == Projected(ontoB.value, edgeB))
      && (ontoB.None? && ontoA.Some? ==> pv == Projected(ontoA.value, edgeA))
  {
    var pivot := k.intersectionPoint(edgeA, edgeB);
    var first := GetProjectedVertex(k, endOfA, edgeB, pivot);
    if first.IsValid() then first else GetProjectedVertex(k, endOfB, edgeA, pivot)
  }

  class EdgePair {
    const edgeA: LineSegment
    const edgeB: LineSegment

    var projected0: ProjectedVertex
    var projected1: ProjectedVertex

    /** projected0 belongs to the edgeA.p1 / edgeB.p0 end, projected1 to the
        edgeA.p0 / edgeB.p1 end; each is computed first from edge A's endpoint
        and overwritten by the projection of edge B's endpoint when invalid. */
    constructor (k: Kernel, edgeA: LineSegment, edgeB: LineSegment)
      ensures this.edgeA == edgeA && this.edgeB == edgeB
      ensures projected0 == ProjectWithFallback(k, edgeA, edgeB, edgeA.p1, edgeB.p0)
      ensures projected1 == ProjectWithFallback(k, edgeA, edgeB, edgeA.p0, edgeB.p1)
    {
      var intersectionPoint := k.intersectionPoint(edgeA, edgeB);
      this.edgeA := edgeA;
      this.edgeB := edgeB;
      new;
      projected0 := GetProjectedVertex(k, edgeA.p1, edgeB, intersectionPoint);
      if !projected0.IsValid() {
        projected0 := GetProjectedVertex(k, edgeB.p0, edgeA, intersectionPoint);
      }
      projected1 := GetProjectedVertex(k, edgeA.p0, edgeB, intersectionPoint);
      if !projected1.IsValid() {
        projected1 := GetProjectedVertex(k, edgeB.p1, edgeA, intersectionPoint);
      }
    }

    function GetSubpolygons(k: Kernel): (s: EdgePairSubpolygons)
      reads this
      ensures s.WellFormed(k)
      ensures s.edgeA == edgeA && s.edgeB == edgeB
      ensures s.triangle1.Some? <==> projected0.IsValid()
      ensures s.triangle2.Some? <==> projected1.IsValid()
    {
      MakeSubpolygons(k, edgeA, edgeB, projected0, projected1)
    }
  }

  /** The trapezoid corner on edge `e`: the projected vertex if it lies on `e`,
      otherwise `own`, the corner of `e` itself. */
  function Corner(pv: ProjectedVertex, e: LineSegment, own: Coordinate): (c: Coordinate)
    ensures pv.IsOnEdge(e) ==> c == pv.point
    ensures !pv.IsOnEdge(e) ==> c == own
  {
    if pv.IsOnEdge(e) then pv.point else own
  }

  /** The area of a region that may be missing; a missing region has area 0. */
  function AreaOrZero(k: Kernel, p: Option<Polygon>): (a: real)
    ensures p.None? ==> a == 0.0
    ensures p.Some? ==> a == k.area(p.value)
  {
    if p.Some? then k.area(p.value) else 0.0
  }

  datatype Region = Triangle1 | Trapezoid | Triangle2

  /** Where a cut of the requested area falls: a region and the fraction of it to cut away. */
  datatype CutSite = CutSite(region: Region, fraction: real)

  /** What getCuts ends with: the list it returns, or the exception it throws. */
  datatype CutsOutcome = Returned(cuts: seq<CutSite>) | NullPointerException | IllegalStateException

  const Epsilon: real := 0.00001

  /** Absolute-tolerance comparison of two areas. */
  function AlmostEqual(a: real, b: real): (r: bool)
    ensures r <==> (a - b < Epsilon && b - a < Epsilon)
  {
    (if a - b < 0.0 then b - a else a - b) < Epsilon
  }

  /** The share of a region of area `area` that holds `needed`, as the source
      computes it for pointAlong. */
  function Fraction(needed: real, area: real): (f: real)
    requires 0.0 < needed <= area
    ensures area > 0.0 && 0.0 < f <= 1.0 && f * area == needed
  {
    FractionInUnitInterval(needed, area);
    needed / area
  }

  /** The area of the piece sliced off along the chord from `from` to `to`, which
      exists only when more than one segment of the ring lies on that side. */
  function OutsideArea(k: Kernel, polygon: Polygon, segmentCount: int, from: Coordinate, to: Coordinate): (a: real)
    ensures segmentCount <= 1 ==> a == 0.0
    ensures segmentCount > 1 ==> a == k.area(k.slicePolygon(polygon, from, to))
  {
    if segmentCount > 1 then k.area(k.slicePolygon(polygon, from, to)) else 0.0
  }

  /** Builds the regions between edge A and edge B from the two projected vertices. */
  function MakeSubpolygons(k: Kernel, edgeA: LineSegment, edgeB: LineSegment,
                           projected0: ProjectedVertex, projected1: ProjectedVertex): (s: EdgePairSubpolygons)
    ensures s.WellFormed(k)
    ensures s.edgeA == edgeA && s.edgeB == edgeB
    ensures s.triangle1 == if projected0.IsValid() then Some(CreateTriangle(edgeA.p1, projected0.point, edgeB.p0)) else None
    ensures s.triangle2 == if projected1.IsValid() then Some(CreateTriangle(edgeA.p0, projected1.point, edgeB.p1)) else None
    ensures !projected0.IsValid() ==> s.triangle1Area == 0.0
    ensures !projected1.IsValid() ==> s.triangle2Area == 0.0
    ensures s.trapezoid.ring == [Corner(projected1, edgeA, edgeA.p0), Corner(projected0, edgeA, edgeA.p1),
                                 Corner(projected0, edgeB, edgeB.p0), Corner(projected1, edgeB, edgeB.p1)]
  {
    var triangle1 := if projected0.IsValid() then Some(CreateTriangle(edgeA.p1, projected0.point, edgeB.p0)) else None;
    var triangle2 := if projected1.IsValid() then Some(CreateTriangle(edgeA.p0, projected1.point, edgeB.p1)) else None;
    var coord1 := if projected1.IsOnEdge(edgeA) then projected1.point else edgeA.p0;
    var coord2 := if projected0.IsOnEdge(edgeA) then projected0.point else edgeA.p1;
    var coord3 := if projected0.IsOnEdge(edgeB) then projected0.point else edgeB.p0;
    var coord4 := if projected1.IsOnEdge(edgeB) then projected1.point else edgeB.p1;
    var trapezoid := CreatePolygon(coord1, coord2, coord3, coord4);
    EdgePairSubpolygons(edgeA, edgeB, triangle1, trapezoid, triangle2,
                        AreaOrZero(k, triangle1), k.area(trapezoid), AreaOrZero(k, triangle2))
  }

  /** The three regions between an edge pair, with their areas. */
  datatype EdgePairSubpolygons = EdgePairSubpolygons(
    edgeA: LineSegment,
    edgeB: LineSegment,
    triangle1: Option<Polygon>,
    trapezoid: Polygon,
    triangle2: Option<Polygon>,
    triangle1Area: real,
    trapezoidArea: real,
    triangle2Area: real)
  {
    /** The recorded areas are the kernel's areas of the regions (0 for a missing triangle). */
    predicate WellFormed(k: Kernel)
    {
      && triangle1Area == AreaOrZero(k, triangle1)
      && trapezoidArea == k.area(trapezoid)
      && triangle2Area == AreaOrZero(k, triangle2)
    }

    function GetTotalArea(): (total: real)
      ensures total == Sum(RegionAreas())
      ensures NonNegativeAreas() ==> total >= triangle1Area && total >= trapezoidArea && total >= triangle2Area
    {
      var areas := RegionAreas();
      assert areas[1..][1..] == [triangle2Area];
      assert Sum(areas[1..][1..]) == triangle2Area + Sum([]);
      triangle1Area + trapezoidArea + triangle2Area
    }

    /** The region areas in the order the first sweep direction visits them. */
    function RegionAreas(): seq<real>
    {
      [triangle1Area, trapezoidArea, triangle2Area]
    }

    predicate NonNegativeAreas()
    {
      triangle1Area >= 0.0 && trapezoidArea >= 0.0 && triangle2Area >= 0.0
    }

    function RegionArea(region: Region): real
    {
      match region
      case Triangle1 => triangle1Area
      case Trapezoid => trapezoidArea
      case Triangle2 => triangle2Area
    }

    /** The cumulative area of the regions that the sweep passes before `region`. */
    function AreaBefore(region: Region): real
    {
      match region
      case Triangle1 => 0.0
      case Trapezoid => triangle1Area
      case Triangle2 => triangle1Area + trapezoidArea
    }

    /** Cutting at `c` removes exactly `singlePartArea`: the outside area, every
        region before `c.region` whole, and the fraction `c.fraction` of it. */
    predicate CutsAway(areaOutside: real, c: CutSite, singlePartArea: real)
    {
      areaOutside + AreaBefore(c.region) + c.fraction * RegionArea(c.region) == singlePartArea
    }

    /** The region walk of the first sweep direction: starting from the area
        already outside the pair, take triangle 1, the trapezoid and triangle 2
        in turn and stop in the first one whose cumulative area reaches the
        requested area. */
    function LocateCut(areaOutside: real, singlePartArea: real): (r: Option<CutSite>)
      ensures areaOutside >= singlePartArea ==> r.None?
      ensures r.None? ==> areaOutside >= singlePartArea || areaOutside + GetTotalArea() < singlePartArea
      ensures NonNegativeAreas() ==>
        (r.None? <==> areaOutside >= singlePartArea || areaOutside + GetTotalArea() < singlePartArea)
      ensures r.Some? ==>
        var region := r.value.region;
        && areaOutside + AreaBefore(region) < singlePartArea <= areaOutside + AreaBefore(region) + RegionArea(region)
        && RegionArea(region) > 0.0
        && 0.0 < r.value.fraction <= 1.0
        && CutsAway(areaOutside, r.value, singlePartArea)
    {
      if areaOutside < singlePartArea then
        if areaOutside + triangle1Area >= singlePartArea then
          Some(CutSite(Triangle1, Fraction(singlePartArea - areaOutside, triangle1Area)))
        else if areaOutside + triangle1Area + trapezoidArea >= singlePartArea then
          Some(CutSite(Trapezoid, Fraction(singlePartArea - (areaOutside + triangle1Area), trapezoidArea)))
        else if areaOutside + GetTotalArea() >= singlePartArea then
          Some(CutSite(Triangle2, Fraction(singlePartArea - (areaOutside + triangle1Area + trapezoidArea), triangle2Area)))
        else
          None
      else
        None
    }

    /** The cut search of the first sweep direction, as written: the outside
        areas are read before the outside pieces are sliced off (so both are
        0), a cut found by the walk dereferences the outside piece (which is
        null unless more than one segment lies between the edges), the sanity
        check throws when the areas DO agree, and the list returned is always
        empty. */
    method GetCuts(k: Kernel, polygon: Polygon, singlePartArea: real,
                   segmentCountBetweenEdgePair: int, segmentCountOutsideEdgePair: int) returns (outcome: CutsOutcome)
      requires WellFormed(k)
      ensures outcome == NullPointerException <==>
        segmentCountBetweenEdgePair <= 1 && LocateCut(0.0, singlePartArea).Some?
      ensures outcome == IllegalStateException <==>
        !(segmentCountBetweenEdgePair <= 1 && LocateCut(0.0, singlePartArea).Some?) &&
        AlmostEqual(GetTotalArea(), k.area(polygon))
      ensures outcome.Returned? ==> outcome.cuts == []
    {
      var cuts: seq<CutSite> := [];

      var polygonOutside1: Option<Polygon> := None;
      var polygonOutside2: Option<Polygon> := None;
      var areaOutside1 := AreaOrZero(k, polygonOutside1);
      var areaOutside2 := AreaOrZero(k, polygonOutside2);

      if segmentCountBetweenEdgePair > 1 {
        polygonOutside1 := Some(k.slicePolygon(polygon, edgeA.p1, edgeB.p0));
      }
      if segmentCountOutsideEdgePair > 1 {
        polygonOutside2 := Some(k.slicePolygon(polygon, edgeB.p1, edgeA.p0));
      }

      if areaOutside1 < singlePartArea {
        if areaOutside1 + triangle1Area >= singlePartArea {
          var areaToCutAwayInTriangle := singlePartArea - areaOutside1;
          var fraction := areaToCutAwayInTriangle / triangle1Area;
          FractionInUnitInterval(areaToCutAwayInTriangle, triangle1Area);
          assert fraction >= 0.0 && fraction <= 1.0;
          // the corner of triangle 1 read here exists
          assert triangle1.Some?;
          // polygonOutside1.union(...)
          if polygonOutside1.None? {
            return NullPointerException;
          }
          cuts := cuts + [CutSite(Triangle1, fraction)];
        } else if areaOutside1 + triangle1Area + trapezoidArea >= singlePartArea {
          var areaToCutAway := singlePartArea - (areaOutside1 + triangle1Area);
          var fraction := areaToCutAway / trapezoidArea;
          FractionInUnitInterval(areaToCutAway, trapezoidArea);
          assert fraction >= 0.0 && fraction <= 1.0;
          // cutAwayPolygon starts as polygonOutside1 and is unioned with triangle 1
          // (when its area is positive) and with the partial trapezoid
          if polygonOutside1.None? {
            return NullPointerException;
          }
          cuts := cuts + [CutSite(Trapezoid, fraction)];
        } else if areaOutside1 + GetTotalArea() >= singlePartArea {
          var areaToCutAwayInTriangle := singlePartArea - (areaOutside1 + triangle1Area + trapezoidArea);
          var fraction := areaToCutAwayInTriangle / triangle2Area;
          FractionInUnitInterval(areaToCutAwayInTriangle, triangle2Area);
          assert fraction >= 0.0 && fraction <= 1.0;
          // the corner of triangle 2 read here exists
          assert triangle2.Some?;
          if polygonOutside1.None? {
            return NullPointerException;
          }
          cuts := cuts + [CutSite(Triangle2, fraction)];
        }
      }
      // the cut collected is the one the region walk locates
      assert cuts == if LocateCut(areaOutside1, singlePartArea).Some? then [LocateCut(areaOutside1, singlePartArea).value] else [];

      // sanity check
      if AlmostEqual(areaOutside1 + areaOutside2 + GetTotalArea(), k.area(polygon)) {
        return IllegalStateException;
      }
      return Returned([]);
    }

    /** The cut search of the first sweep direction as it is evidently meant to
        work: the outside piece's area is taken after it is sliced off, no cut
        dereferences a missing outside piece, the sanity check throws when the
        areas do NOT agree, and the cut found is returned. */
    method GetCutsCorrected(k: Kernel, polygon: Polygon, singlePartArea: real,
                            segmentCountBetweenEdgePair: int, segmentCountOutsideEdgePair: int) returns (outcome: CutsOutcome)
      requires WellFormed(k)
      ensures outcome != NullPointerException
      ensures var areaOutside1 := OutsideArea(k, polygon, segmentCountBetweenEdgePair, edgeA.p1, edgeB.p0);
        var areaOutside2 := OutsideArea(k, polygon, segmentCountOutsideEdgePair, edgeB.p1, edgeA.p0);
        && (outcome == IllegalStateException <==> !AlmostEqual(areaOutside1 + areaOutside2 + GetTotalArea(), k.area(polygon)))
        && (outcome.Returned? ==> outcome.cuts == match LocateCut(areaOutside1, singlePartArea)
                                                   case Some(c) => [c]
                                                   case None => [])
        && (outcome.Returned? && NonNegativeAreas() ==>
              (|outcome.cuts| == 1 <==> areaOutside1 < singlePartArea <= areaOutside1 + GetTotalArea()))
        && (outcome.Returned? ==> forall c :: c in outcome.cuts ==>
              0.0 < c.fraction <= 1.0 && CutsAway(areaOutside1, c, singlePartArea))
    {
      var cuts: seq<CutSite> := [];

      var polygonOutside1: Option<Polygon> := None;
      var polygonOutside2: Option<Polygon> := None;
      if segmentCountBetweenEdgePair > 1 {
        polygonOutside1 := Some(k.slicePolygon(polygon, edgeA.p1, edgeB.p0));
      }
      if segmentCountOutsideEdgePair > 1 {
        polygonOutside2 := Some(k.slicePolygon(polygon, edgeB.p1, edgeA.p0));
      }
      var areaOutside1 := AreaOrZero(k, polygonOutside1);
      var areaOutside2 := AreaOrZero(k, polygonOutside2);

      assert areaOutside1 == OutsideArea(k, polygon, segmentCountBetweenEdgePair, edgeA.p1, edgeB.p0);
      assert areaOutside2 == OutsideArea(k, polygon, segmentCountOutsideEdgePair, edgeB.p1, edgeA.p0);

      var site := LocateCut(areaOutside1, singlePartArea);
      if site.Some? {
        var c := site.value;
        assert 0.0 < c.fraction <= 1.0;
        cuts := cuts + [c];
      }

      if !AlmostEqual(areaOutside1 + areaOutside2 + GetTotalArea(), k.area(polygon)) {
        return IllegalStateException;
      }
      return Returned(cuts);
    }
  }
}
