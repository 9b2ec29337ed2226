/**
 * `Coverage.get_closest_coverage` of the `papernest` app, with its class constants.
 * The query point is projected from WGS84 (SRID 4326) to Web Mercator (SRID 3857)
 * and every coverage row is annotated with its distance to it; those distances
 * are the `dist` fields of the rows given here.
 */
module PapernestModels {
  import opened Wrappers
  import opened CoverageSelection

  const SRID_WGS84: int := 4326
  const SRID_WEB_MERCATOR: int := 3857
  /** Rows at this distance or more never match. */
  const MAX_DIST_METERS: int := 200

  /**
   * The coverage rows nearest to the query point, per operator, ordered by
   * operator then distance.
   */
  function GetClosestCoverage(rows: seq<Row>): (closest: seq<Row>)
    ensures forall r :: r in closest ==> r.dist < MAX_DIST_METERS as real
    ensures forall r :: r in closest <==> r in rows && IsClosest(rows, MAX_DIST_METERS as real, r)
    ensures forall opId :: HasRow(closest, opId) <==> HasRowWithin(rows, opId, MAX_DIST_METERS as real)
    ensures forall r :: multiset(closest)[r] == (if IsClosest(rows, MAX_DIST_METERS as real, r) then multiset(rows)[r] else 0)
    ensures multiset(closest) <= multiset(rows)
    ensures Sorted(closest)
  {
    var maxDist := MAX_DIST_METERS as real;
    ClosestCoverageOrdered(rows, maxDist);
    ClosestCoverageSubMultiset(rows, maxDist);
    assert forall r :: multiset(ClosestCoverage(rows, maxDist))[r] == (if IsClosest(rows, maxDist, r) then multiset(rows)[r] else 0) by {
      forall r ensures multiset(ClosestCoverage(rows, maxDist))[r] == (if IsClosest(rows, maxDist, r) then multiset(rows)[r] else 0) {
        ClosestCoverageCount(rows, maxDist, r);
      }
    }
    assert forall r :: r in ClosestCoverage(rows, maxDist) <==> r in rows && IsClosest(rows, maxDist, r) by {
      forall r ensures r in ClosestCoverage(rows, maxDist) <==> r in rows && IsClosest(rows, maxDist, r) {
        ClosestCoverageMembership(rows, maxDist, r);
      }
    }
    assert forall opId :: HasRow(ClosestCoverage(rows, maxDist), opId) <==> HasRowWithin(rows, opId, maxDist) by {
      forall opId ensures HasRow(ClosestCoverage(rows, maxDist), opId) <==> HasRowWithin(rows, opId, maxDist) {
        ClosestCoverageOperators(rows, maxDist, opId);
      }
    }
    ClosestCoverage(rows, maxDist)
  }

  /** A row exactly at the threshold is excluded, one just under it is kept. */
  lemma ThresholdBoundary(row: Row)
    ensures GetClosestCoverage([row.(dist := 200.0)]) == []
    ensures GetClosestCoverage([row.(dist := 199.999)]) == [row.(dist := 199.999)]
  {
    var under := row.(dist := 199.999);
    assert IsClosest([under], 200.0, under);
    var result := GetClosestCoverage([under]);
    assert |result| == |[under]| by {
      assert multiset(result) == multiset([under]);
    }
    assert result[0] in result;
  }

  const Orange := Operator(20801, "Orange")
  const Sfr := Operator(20810, "SFR")
  const Free := Operator(20815, "Free")
  const Bouygue := Operator(20820, "Bouygue")

  const Near1 := Row(1, Free, 73.5, true, false, true)
  const Far2 := Row(2, Orange, 150.0, false, false, true)
  const Near3 := Row(3, Sfr, 110.2, false, false, false)
  const Out4 := Row(4, Bouygue, 5000.0, true, true, true)
  const Near5 := Row(5, Orange, 72.9, true, true, false)
  const Out6 := Row(6, Free, 250.0, false, false, false)

  lemma ExampleBelowThreshold()
    ensures BelowThreshold([Near1, Far2, Near3, Out4, Near5, Out6], MAX_DIST_METERS as real) == [Near1, Far2, Near3, Near5]
  {
    var m := MAX_DIST_METERS as real;
    assert [Near1, Far2, Near3, Out4, Near5, Out6][1..] == [Far2, Near3, Out4, Near5, Out6];
    assert [Far2, Near3, Out4, Near5, Out6][1..] == [Near3, Out4, Near5, Out6];
    assert [Near3, Out4, Near5, Out6][1..] == [Out4, Near5, Out6];
    assert [Out4, Near5, Out6][1..] == [Near5, Out6];
    assert [Near5, Out6][1..] == [Out6];
    assert [Out6][1..] == [];
    assert BelowThreshold([Out6], m) == [];
    assert BelowThreshold([Near5, Out6], m) == [Near5];
    assert BelowThreshold([Out4, Near5, Out6], m) == [Near5];
    assert BelowThreshold([Near3, Out4, Near5, Out6], m) == [Near3, Near5];
    assert BelowThreshold([Far2, Near3, Out4, Near5, Out6], m) == [Far2, Near3, Near5];
  }

  lemma ExampleAtOperatorMinimum()
    ensures AtOperatorMinimum([Near1, Far2, Near3, Near5], [Near1, Far2, Near3, Near5]) == [Near1, Near3, Near5]
  {
    var q := [Near1, Far2, Near3, Near5];
    assert q[1..] == [Far2, Near3, Near5];
    assert [Far2, Near3, Near5][1..] == [Near3, Near5];
    assert [Near3, Near5][1..] == [Near5];
    assert [Near5][1..] == [];
    assert MinDistance([Near5], Orange.id) == Some(72.9);
    assert MinDistance([Near3, Near5], Orange.id) == Some(72.9);
    assert MinDistance([Far2, Near3, Near5], Orange.id) == Some(72.9);
    assert MinDistance([Near5], Sfr.id) == None;
    assert MinDistance([Near3, Near5], Sfr.id) == Some(110.2);
    assert MinDistance([Far2, Near3, Near5], Sfr.id) == Some(110.2);
    assert MinDistance([Near5], Free.id) == None;
    assert MinDistance([Near3, Near5], Free.id) == None;
    assert MinDistance([Far2, Near3, Near5], Free.id) == None;
    assert MinDistance(q, Free.id) == Some(73.5);
    assert MinDistance(q, Orange.id) == Some(72.9);
    assert MinDistance(q, Sfr.id) == Some(110.2);
    assert AtOperatorMinimum([Near5], q) == [Near5];
    assert AtOperatorMinimum([Near3, Near5], q) == [Near3, Near5];
    assert AtOperatorMinimum([Far2, Near3, Near5], q) == [Near3, Near5];
  }

  lemma ExampleOrder()
    ensures OrderByOperatorDistance([Near1, Near3, Near5]) == [Near5, Near3, Near1]
  {
    assert [Near1, Near3, Near5][1..] == [Near3, Near5];
    assert [Near3, Near5][1..] == [Near5];
    assert [Near5][1..] == [];
    assert OrderByOperatorDistance([Near5]) == [Near5];
    assert Insert(Near3, [Near5]) == [Near5, Near3];
    assert OrderByOperatorDistance([Near3, Near5]) == [Near5, Near3];
    assert Insert(Near1, [Near3]) == [Near3, Near1];
    assert Insert(Near1, [Near5, Near3]) == [Near5, Near3, Near1];
  }

  /**
   * Three operators are near the query point, the fourth is far: one row per
   * near operator, each with the flags of that operator's own nearest row.
   */
  lemma ThreeNearbyOperators()
    ensures GetClosestCoverage([Near1, Far2, Near3, Out4, Near5, Out6]) == [Near5, Near3, Near1]
  {
    ExampleBelowThreshold();
    ExampleAtOperatorMinimum();
    ExampleOrder();
  }

  /** A query point far from every coverage row gets no rows. */
  lemma FarFromEverything(rows: seq<Row>)
    requires forall r :: r in rows ==> r.dist >= 10000.0
    ensures GetClosestCoverage(rows) == []
  {
    ClosestCoverageEmpty(rows, MAX_DIST_METERS as real);
  }
}
