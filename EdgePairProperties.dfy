/** Properties that relate several members of the edge-pair model: the region
    walk against the reference cumulative walk, and the regions built from an
    edge pair's projections against the projections themselves. */
module EdgePairProperties {

  import opened Geometry
  import opened CumulativeWalk
  import opened EdgePair

  /** The regions in the order the first sweep direction visits them. */
  const SweepOrder: seq<Region> := [Triangle1, Trapezoid, Triangle2]

  /** The three-branch walk makes exactly the choice of the reference walk
      over the region areas: no region when the reference finds none, and
      otherwise the region at the index the reference finds, cut at the share
      of it that the reference says is still needed. */
  lemma LocateCutIsFirstReach(s: EdgePairSubpolygons, areaOutside: real, singlePartArea: real)
    requires areaOutside < singlePartArea
    ensures var walk := FirstReach(areaOutside, s.RegionAreas(), singlePartArea);
      var cut := s.LocateCut(areaOutside, singlePartArea);
      && (cut.None? <==> walk.None?)
      && (walk.Some? ==>
            && walk.value.index < |SweepOrder|
            && cut.value.region == SweepOrder[walk.value.index]
            && walk.value.needed == singlePartArea - (areaOutside + s.AreaBefore(cut.value.region))
            && cut.value.fraction * s.RegionArea(cut.value.region) == walk.value.needed)
  {
    var areas := s.RegionAreas();
    var afterT1 := areaOutside + s.triangle1Area;
    var afterTrapezoid := afterT1 + s.trapezoidArea;
    assert areas[1..] == [s.trapezoidArea, s.triangle2Area];
    assert areas[1..][1..] == [s.triangle2Area];
    assert areas[1..][1..][1..] == [];
    assert FirstReach(afterTrapezoid + s.triangle2Area, [], singlePartArea) == None;
    if afterT1 >= singlePartArea {
      assert FirstReach(areaOutside, areas, singlePartArea) == Some(Reach(0, singlePartArea - areaOutside));
    } else if afterTrapezoid >= singlePartArea {
      assert FirstReach(afterT1, areas[1..], singlePartArea) == Some(Reach(0, singlePartArea - afterT1));
    } else if afterTrapezoid + s.triangle2Area >= singlePartArea {
      assert FirstReach(afterTrapezoid, areas[1..][1..], singlePartArea) == Some(Reach(0, singlePartArea - afterTrapezoid));
      assert FirstReach(afterT1, areas[1..], singlePartArea) == Some(Reach(1, singlePartArea - afterTrapezoid));
    } else {
      assert FirstReach(afterTrapezoid, areas[1..][1..], singlePartArea) == None;
      assert FirstReach(afterT1, areas[1..], singlePartArea) == None;
    }
  }

  /** The total area is the sum of the region areas, a missing triangle adding 0. */
  lemma TotalAreaIsSumOfRegions(k: Kernel, s: EdgePairSubpolygons)
    requires s.WellFormed(k)
    ensures s.GetTotalArea() == Sum(s.RegionAreas())
    ensures s.GetTotalArea() == AreaOrZero(k, s.triangle1) + k.area(s.trapezoid) + AreaOrZero(k, s.triangle2)
  {
  }

  /** When the first sweep direction picks triangle 1 or triangle 2, the
      triangle it cuts into exists. */
  lemma CutTriangleExists(k: Kernel, s: EdgePairSubpolygons, areaOutside: real, singlePartArea: real)
    requires s.WellFormed(k)
    requires s.LocateCut(areaOutside, singlePartArea).Some?
    ensures s.LocateCut(areaOutside, singlePartArea).value.region == Triangle1 ==> s.triangle1.Some?
    ensures s.LocateCut(areaOutside, singlePartArea).value.region == Triangle2 ==> s.triangle2.Some?
  {
  }

  /** The edgeA.p1 / edgeB.p0 end of a constructed edge pair: which triangle 1
      exists and which two trapezoid corners (the second and third) are used. */
  lemma EndZeroRegions(k: Kernel, edgeA: LineSegment, edgeB: LineSegment)
    requires !EqualsTopo(edgeA, edgeB)
    ensures var pivot := k.intersectionPoint(edgeA, edgeB);
      var ontoB := k.projectedPoint(edgeA.p1, edgeB, pivot);
      var ontoA := k.projectedPoint(edgeB.p0, edgeA, pivot);
      var s := MakeSubpolygons(k, edgeA, edgeB,
                               ProjectWithFallback(k, edgeA, edgeB, edgeA.p1, edgeB.p0),
                               ProjectWithFallback(k, edgeA, edgeB, edgeA.p0, edgeB.p1));
      && (ontoB.Some? ==>
            s.triangle1 == Some(CreateTriangle(edgeA.p1, ontoB.value, edgeB.p0)) &&
            s.trapezoid.ring[1] == edgeA.p1 && s.trapezoid.ring[2] == ontoB.value)
      && (ontoB.None? && ontoA.Some? ==>
            s.triangle1 == Some(CreateTriangle(edgeA.p1, ontoA.value, edgeB.p0)) &&
            s.trapezoid.ring[1] == ontoA.value && s.trapezoid.ring[2] == edgeB.p0)
      && (ontoB.None? && ontoA.None? ==>
            s.triangle1 == None && s.triangle1Area == 0.0 &&
            s.trapezoid.ring[1] == edgeA.p1 && s.trapezoid.ring[2] == edgeB.p0)
  {
  }

  /** The edgeA.p0 / edgeB.p1 end of a constructed edge pair: which triangle 2
      exists and which two trapezoid corners (the first and fourth) are used. */
  lemma EndOneRegions(k: Kernel, edgeA: LineSegment, edgeB: LineSegment)
    requires !EqualsTopo(edgeA, edgeB)
    ensures var pivot := k.intersectionPoint(edgeA, edgeB);
      var ontoB := k.projectedPoint(edgeA.p0, edgeB, pivot);
      var ontoA := k.projectedPoint(edgeB.p1, edgeA, pivot);
      var s := MakeSubpolygons(k, edgeA, edgeB,
                               ProjectWithFallback(k, edgeA, edgeB, edgeA.p1, edgeB.p0),
                               ProjectWithFallback(k, edgeA, edgeB, edgeA.p0, edgeB.p1));
      && (ontoB.Some? ==>
            s.triangle2 == Some(CreateTriangle(edgeA.p0, ontoB.value, edgeB.p1)) &&
            s.trapezoid.ring[0] == edgeA.p0 && s.trapezoid.ring[3] == ontoB.value)
      && (ontoB.None? && ontoA.Some? ==>
            s.triangle2 == Some(CreateTriangle(edgeA.p0, ontoA.value, edgeB.p1)) &&
            s.trapezoid.ring[0] == ontoA.value && s.trapezoid.ring[3] == edgeB.p1)
      && (ontoB.None? && ontoA.None? ==>
            s.triangle2 == None && s.triangle2Area == 0.0 &&
            s.trapezoid.ring[0] == edgeA.p0 && s.trapezoid.ring[3] == edgeB.p1)
  {
  }

  /** With no projection at all (for instance parallel edges), only the
      trapezoid exists and its corners are the four endpoints of the edges. */
  lemma NoProjectionTrapezoidOnly(k: Kernel, edgeA: LineSegment, edgeB: LineSegment)
    requires var pivot := k.intersectionPoint(edgeA, edgeB);
      && k.projectedPoint(edgeA.p1, edgeB, pivot).None? && k.projectedPoint(edgeB.p0, edgeA, pivot).None?
      && k.projectedPoint(edgeA.p0, edgeB, pivot).None? && k.projectedPoint(edgeB.p1, edgeA, pivot).None?
    ensures var s := MakeSubpolygons(k, edgeA, edgeB,
                                     ProjectWithFallback(k, edgeA, edgeB, edgeA.p1, edgeB.p0),
                                     ProjectWithFallback(k, edgeA, edgeB, edgeA.p0, edgeB.p1));
      && s.triangle1.None? && s.triangle2.None?
      && s.GetTotalArea() == k.area(s.trapezoid)
      && s.trapezoid == CreatePolygon(edgeA.p0, edgeA.p1, edgeB.p0, edgeB.p1)
  {
  }
}
