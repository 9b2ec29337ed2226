/**
 * `Coverage.get_closest_coverage` of the `papernest_test` app: the same query as
 * the `papernest` app's, written with the literals 3857 and 200 instead of class
 * constants.
 */
module PapernestTestModels {
  import opened CoverageSelection
  import PapernestModels

  /**
   * The coverage rows nearest to the query point, per operator, ordered by
   * operator then distance; nothing at 200 or beyond.
   */
  function GetClosestCoverage(rows: seq<Row>): (closest: seq<Row>)
    ensures forall r :: r in closest <==> r in rows && IsClosest(rows, 200.0, r)
    ensures forall opId :: HasRow(closest, opId) <==> HasRowWithin(rows, opId, 200.0)
    ensures multiset(closest) <= multiset(rows)
    ensures Sorted(closest)
    ensures (forall r :: r in rows ==> r.dist >= 200.0) ==> closest == []
  {
    ClosestCoverageOrdered(rows, 200.0);
    ClosestCoverageSubMultiset(rows, 200.0);
    assert forall r :: r in ClosestCoverage(rows, 200.0) <==> r in rows && IsClosest(rows, 200.0, r) by {
      forall r ensures r in ClosestCoverage(rows, 200.0) <==> r in rows && IsClosest(rows, 200.0, r) {
        ClosestCoverageMembership(rows, 200.0, r);
      }
    }
    assert forall opId :: HasRow(ClosestCoverage(rows, 200.0), opId) <==> HasRowWithin(rows, opId, 200.0) by {
      forall opId ensures HasRow(ClosestCoverage(rows, 200.0), opId) <==> HasRowWithin(rows, opId, 200.0) {
        ClosestCoverageOperators(rows, 200.0, opId);
      }
    }
    assert (forall r :: r in rows ==> r.dist >= 200.0) ==> ClosestCoverage(rows, 200.0) == [] by {
      if forall r :: r in rows ==> r.dist >= 200.0 {
        ClosestCoverageEmpty(rows, 200.0);
      }
    }
    ClosestCoverage(rows, 200.0)
  }

  /** The literal 200 is `MAX_DIST_METERS`: both apps answer every query alike. */
  lemma SameRuleAsPapernest(rows: seq<Row>)
    ensures GetClosestCoverage(rows) == PapernestModels.GetClosestCoverage(rows)
  {
  }
}
