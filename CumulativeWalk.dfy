/** A reference definition of "walk cumulative areas until the target is reached".

    Given an area already accumulated and the areas of consecutive regions,
    `FirstReach` returns the index of the first region whose cumulative area
    reaches the target, and the area still needed inside that region.  The
    edge-pair cut search is proved to make exactly this choice over its three
    regions.
 */
module CumulativeWalk {

  import opened Geometry

  function Sum(s: seq<real>): real
  {
    if s == [] then 0.0 else s[0] + Sum(s[1..])
  }

  /** Region `index` is where the cut falls; `needed` is the area still to cut
      away inside it once every earlier region has been taken whole. */
  datatype Reach = Reach(index: nat, needed: real)

  function FirstReach(acc: real, areas: seq<real>, target: real): Option<Reach>
    decreases areas
  {
    if areas == [] then None
    else if acc + areas[0] >= target then Some(Reach(0, target - acc))
    else
      match FirstReach(acc + areas[0], areas[1..], target)
      case None => None
      case Some(r) => Some(Reach(r.index + 1, r.needed))
  }

  lemma {:induction false} SumAppend(s: seq<real>, x: real)
    ensures Sum(s + [x]) == Sum(s) + x
  {
    if s != [] {
      assert (s + [x])[1..] == s[1..] + [x];
      SumAppend(s[1..], x);
    }
  }

  /** With no negative area, a prefix never sums to more than the whole sequence. */
  lemma {:induction false} SumPrefixBound(s: seq<real>, k: nat)
    requires k <= |s|
    requires forall i :: 0 <= i < |s| ==> s[i] >= 0.0
    ensures Sum(s[..k]) <= Sum(s)
  {
    if k > 0 {
      assert s[..k][1..] == s[1..][..k - 1];
      SumPrefixBound(s[1..], k - 1);
    } else {
      SumNonNegative(s);
    }
  }

  lemma {:induction false} SumNonNegative(s: seq<real>)
    requires forall i :: 0 <= i < |s| ==> s[i] >= 0.0
    ensures Sum(s) >= 0.0
  {
    if s != [] {
      SumNonNegative(s[1..]);
    }
  }

  /** The walk stops at the first region whose cumulative area reaches the
      target: every earlier cumulative total falls short, and the area still
      needed is what separates the target from the total before the region. */
  lemma {:induction false} FirstReachIsFirst(acc: real, areas: seq<real>, target: real)
    requires acc < target
    decreases areas
    ensures FirstReach(acc, areas, target).Some? ==>
      var r := FirstReach(acc, areas, target).value;
      r.index < |areas| &&
      target <= acc + Sum(areas[..r.index + 1]) &&
      r.needed == target - (acc + Sum(areas[..r.index])) &&
      forall j :: 0 <= j <= r.index ==> acc + Sum(areas[..j]) < target
    ensures FirstReach(acc, areas, target).None? ==>
      forall j :: 0 <= j <= |areas| ==> acc + Sum(areas[..j]) < target
  {
    if areas == [] {
    } else if acc + areas[0] >= target {
      assert areas[..1][1..] == [];
      assert areas[..0] == [];
    } else {
      var acc' := acc + areas[0];
      FirstReachIsFirst(acc', areas[1..], target);
      forall j | 0 <= j <= |areas|
        ensures areas[..j] == [] || (areas[..j][0] == areas[0] && areas[..j][1..] == areas[1..][..j - 1])
      {
      }
      match FirstReach(acc', areas[1..], target)
      case None =>
        forall j | 0 <= j <= |areas| ensures acc + Sum(areas[..j]) < target {
          if j > 0 {
            assert acc + Sum(areas[..j]) == acc' + Sum(areas[1..][..j - 1]);
          }
        }
      case Some(r) =>
        assert acc + Sum(areas[..r.index + 1]) == acc' + Sum(areas[1..][..r.index]);
        assert acc + Sum(areas[..r.index + 2]) == acc' + Sum(areas[1..][..r.index + 1]);
        forall j | 0 <= j <= r.index + 1 ensures acc + Sum(areas[..j]) < target {
          if j > 0 {
            assert acc + Sum(areas[..j]) == acc' + Sum(areas[1..][..j - 1]);
          }
        }
    }
  }

  /** In the region the walk picks, the divisor (the region's own area) is
      positive and the fraction of it to cut away lies in (0, 1]. */
  lemma FirstReachFraction(acc: real, areas: seq<real>, target: real)
    requires acc < target
    requires FirstReach(acc, areas, target).Some?
    ensures var r := FirstReach(acc, areas, target).value;
      r.index < |areas| && areas[r.index] > 0.0 &&
      0.0 < r.needed / areas[r.index] <= 1.0
  {
    var r := FirstReach(acc, areas, target).value;
    FirstReachIsFirst(acc, areas, target);
    assert areas[..r.index + 1] == areas[..r.index] + [areas[r.index]];
    SumAppend(areas[..r.index], areas[r.index]);
    FractionInUnitInterval(r.needed, areas[r.index]);
  }

  /** With no negative area, the walk finds a region exactly when the whole
      sequence, added to what is already accumulated, reaches the target. */
  lemma FirstReachExists(acc: real, areas: seq<real>, target: real)
    requires acc < target
    requires forall i :: 0 <= i < |areas| ==> areas[i] >= 0.0
    ensures FirstReach(acc, areas, target).Some? <==> acc + Sum(areas) >= target
  {
    FirstReachIsFirst(acc, areas, target);
    assert areas[..|areas|] == areas;
    if FirstReach(acc, areas, target).Some? {
      SumPrefixBound(areas, FirstReach(acc, areas, target).value.index + 1);
    }
  }

  lemma FractionInUnitInterval(needed: real, area: real)
    requires 0.0 < needed <= area
    ensures area > 0.0 && 0.0 < needed / area <= 1.0
  {
    assert needed / area * area == needed;
  }
}
