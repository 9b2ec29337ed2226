/**
 * The nearest-coverage-per-operator rule that both copies of
 * `Coverage.get_closest_coverage` express as one database query:
 *
 *   closest_rows = rows annotated with `distance`, filtered by `distance < maxDist`;
 *   keep the rows of `closest_rows` whose distance equals the minimum distance of
 *   their own operator's rows in `closest_rows` (a correlated subquery);
 *   order by (operator_id, distance).
 *
 * The geometry (the Web Mercator transform and the PostGIS distance) is not
 * modelled: every row arrives with its distance to the query point already computed.
 */
module CoverageSelection {
  import opened Wrappers

  /** An `Operator` row: its network code (the primary key) and display name. */
  datatype Operator = Operator(id: int, name: string)

  /**
   * A `Coverage` row, joined with its operator and annotated with `dist`, the
   * planar distance from the query point; `g2`, `g3`, `g4` are the generation flags.
   */
  datatype Row = Row(id: int, operator: Operator, dist: real, g2: bool, g3: bool, g4: bool)

  // ---------------------------------------------------------------------------
  // The reference specification: what a row must satisfy to be selected.

  /**
   * `r` is under the threshold and no row of its operator that is under the
   * threshold is nearer to the query point.
   */
  ghost predicate IsClosest(rows: seq<Row>, maxDist: real, r: Row) {
    && r.dist < maxDist
    && forall s :: s in rows && s.operator.id == r.operator.id && s.dist < maxDist ==> r.dist <= s.dist
  }

  /** Some row belongs to operator `opId`. */
  ghost predicate HasRow(rows: seq<Row>, opId: int) {
    exists r :: r in rows && r.operator.id == opId
  }

  /** Some row of operator `opId` is under the threshold. */
  ghost predicate HasRowWithin(rows: seq<Row>, opId: int, maxDist: real) {
    exists r :: r in rows && r.operator.id == opId && r.dist < maxDist
  }

  /** The order of `order_by("operator_id", "distance")`. */
  predicate RowLe(a: Row, b: Row) {
    a.operator.id < b.operator.id || (a.operator.id == b.operator.id && a.dist <= b.dist)
  }

  predicate Sorted(s: seq<Row>) {
    forall i, j :: 0 <= i < j < |s| ==> RowLe(s[i], s[j])
  }

  // ---------------------------------------------------------------------------
  // The query, step by step.

  /** `.filter(distance__lt=maxDist)`: the rows strictly nearer than `maxDist`. */
  function BelowThreshold(rows: seq<Row>, maxDist: real): seq<Row> {
    if rows == [] then []
    else if rows[0].dist < maxDist then [rows[0]] + BelowThreshold(rows[1..], maxDist)
    else BelowThreshold(rows[1..], maxDist)
  }

  /**
   * The correlated subquery `filter(operator_id=OuterRef("operator_id"))
   * .order_by("distance").values("distance")[:1]`: the smallest distance among the
   * rows of operator `opId`, or `None` (SQL NULL) when that operator has no row.
   */
  function MinDistance(rows: seq<Row>, opId: int): Option<real> {
    if rows == [] then None
    else
      var rest := MinDistance(rows[1..], opId);
      if rows[0].operator.id != opId then rest
      else if rest.Some? && rest.value < rows[0].dist then rest
      else Some(rows[0].dist)
  }

  /**
   * `.filter(distance=Subquery(...))`: the rows of `outer` whose distance equals
   * the subquery's value over `inner` for their operator. A NULL subquery value
   * compares unequal to every distance.
   */
  function AtOperatorMinimum(outer: seq<Row>, inner: seq<Row>): seq<Row> {
    if outer == [] then []
    else if MinDistance(inner, outer[0].operator.id) == Some(outer[0].dist) then
      [outer[0]] + AtOperatorMinimum(outer[1..], inner)
    else AtOperatorMinimum(outer[1..], inner)
  }

  /** A row that does not come after the head of a sorted sequence can be put in front of it. */
  lemma SortedCons(x: Row, t: seq<Row>)
    requires Sorted(t)
    requires t == [] || RowLe(x, t[0])
    ensures Sorted([x] + t)
  {
    var u := [x] + t;
    forall i, j | 0 <= i < j < |u|
      ensures RowLe(u[i], u[j])
    {
      if i > 0 {
        assert u[i] == t[i - 1] && u[j] == t[j - 1];
      } else {
        assert u[j] == t[j - 1];
        assert RowLe(t[0], t[j - 1]) || j - 1 == 0;
      }
    }
  }

  /** Inserts `r` into a sorted sequence after the rows that do not come after it. */
  function Insert(r: Row, s: seq<Row>): (t: seq<Row>)
    requires Sorted(s)
    ensures multiset(t) == multiset(s) + multiset{r}
    ensures Sorted(t)
    ensures |t| == |s| + 1 && (t[0] == r || (s != [] && t[0] == s[0]))
  {
    if s == [] then [r]
    else if RowLe(r, s[0]) then
      SortedCons(r, s);
      [r] + s
    else
      var t' := Insert(r, s[1..]);
      assert s == [s[0]] + s[1..];
      assert RowLe(s[0], t'[0]);
      SortedCons(s[0], t');
      [s[0]] + t'
  }

  /** `.order_by("operator_id", "distance")`, as a stable insertion sort. */
  function OrderByOperatorDistance(s: seq<Row>): (t: seq<Row>)
    ensures multiset(t) == multiset(s)
    ensures Sorted(t)
  {
    if s == [] then []
    else
      assert s == [s[0]] + s[1..];
      Insert(s[0], OrderByOperatorDistance(s[1..]))
  }

  /** The rows that survive both filters, before ordering. */
  function ClosestPerOperator(rows: seq<Row>, maxDist: real): seq<Row> {
    var closestRows := BelowThreshold(rows, maxDist);
    AtOperatorMinimum(closestRows, closestRows)
  }

  /** The whole query: filter, keep each operator's nearest rows, order. */
  function ClosestCoverage(rows: seq<Row>, maxDist: real): seq<Row> {
    OrderByOperatorDistance(ClosestPerOperator(rows, maxDist))
  }

  // ---------------------------------------------------------------------------
  // What each step computes.

  /** The threshold filter keeps every copy of a row under the threshold and nothing else. */
  lemma {:induction false} BelowThresholdCount(rows: seq<Row>, maxDist: real)
    ensures forall r :: multiset(BelowThreshold(rows, maxDist))[r] == (if r.dist < maxDist then multiset(rows)[r] else 0)
  {
    if rows != [] {
      BelowThresholdCount(rows[1..], maxDist);
      assert rows == [rows[0]] + rows[1..];
    }
  }

  /** The subquery yields NULL exactly when the operator has no row, and otherwise the least distance. */
  lemma {:induction false} MinDistanceIsMinimum(rows: seq<Row>, opId: int)
    ensures MinDistance(rows, opId).None? <==> !HasRow(rows, opId)
    ensures MinDistance(rows, opId).Some? ==>
              exists r :: r in rows && r.operator.id == opId && r.dist == MinDistance(rows, opId).value
    ensures MinDistance(rows, opId).Some? ==>
              forall r :: r in rows && r.operator.id == opId ==> MinDistance(rows, opId).value <= r.dist
  {
    if rows != [] {
      MinDistanceIsMinimum(rows[1..], opId);
      assert forall r :: r in rows <==> r == rows[0] || r in rows[1..];
    }
  }

  /** The subquery filter keeps every copy of a row whose distance matches the subquery, and nothing else. */
  lemma {:induction false} AtOperatorMinimumCount(outer: seq<Row>, inner: seq<Row>)
    ensures forall r :: multiset(AtOperatorMinimum(outer, inner))[r] ==
                        (if MinDistance(inner, r.operator.id) == Some(r.dist) then multiset(outer)[r] else 0)
  {
    if outer != [] {
      AtOperatorMinimumCount(outer[1..], inner);
      assert outer == [outer[0]] + outer[1..];
    }
  }

  // ---------------------------------------------------------------------------
  // What the query computes.

  /**
   * Each row is returned exactly as often as it occurs in the input when it is
   * closest for its operator, and never otherwise: the query only filters and
   * reorders, and keeps every row tied at its operator's minimum distance.
   */
  lemma ClosestCoverageCount(rows: seq<Row>, maxDist: real, r: Row)
    ensures multiset(ClosestCoverage(rows, maxDist))[r] ==
            (if IsClosest(rows, maxDist, r) then multiset(rows)[r] else 0)
  {
    var q := BelowThreshold(rows, maxDist);
    assert multiset(ClosestCoverage(rows, maxDist)) == multiset(AtOperatorMinimum(q, q));
    AtOperatorMinimumCount(q, q);
    BelowThresholdCount(rows, maxDist);
    BelowThresholdMembership(rows, maxDist, r);
    if r in q {
      MinDistanceOfClosest(rows, maxDist, r);
    }
  }

  lemma BelowThresholdMembership(rows: seq<Row>, maxDist: real, s: Row)
    ensures s in BelowThreshold(rows, maxDist) <==> s in rows && s.dist < maxDist
  {
    var q := BelowThreshold(rows, maxDist);
    BelowThresholdCount(rows, maxDist);
    assert s in q <==> multiset(q)[s] > 0;
    assert s in rows <==> multiset(rows)[s] > 0;
  }

  /** For a row under the threshold, matching the subquery is being closest. */
  lemma MinDistanceOfClosest(rows: seq<Row>, maxDist: real, r: Row)
    requires r in BelowThreshold(rows, maxDist)
    ensures MinDistance(BelowThreshold(rows, maxDist), r.operator.id) == Some(r.dist) <==> IsClosest(rows, maxDist, r)
  {
    var q := BelowThreshold(rows, maxDist);
    var m := MinDistance(q, r.operator.id);
    MinDistanceIsMinimum(q, r.operator.id);
    BelowThresholdMembership(rows, maxDist, r);
    forall s | s in rows && s.operator.id == r.operator.id && s.dist < maxDist
      ensures m.value <= s.dist
    {
      BelowThresholdMembership(rows, maxDist, s);
    }
    var c :| c in q && c.operator.id == r.operator.id && c.dist == m.value;
    BelowThresholdMembership(rows, maxDist, c);
  }

  /** Membership: a row is returned if and only if it is an input row closest for its operator. */
  lemma ClosestCoverageMembership(rows: seq<Row>, maxDist: real, r: Row)
    ensures r in ClosestCoverage(rows, maxDist) <==> r in rows && IsClosest(rows, maxDist, r)
  {
    ClosestCoverageCount(rows, maxDist, r);
    assert r in ClosestCoverage(rows, maxDist) <==> multiset(ClosestCoverage(rows, maxDist))[r] > 0;
    assert r in rows <==> multiset(rows)[r] > 0;
  }

  /** An operator appears in the result if and only if one of its rows is under the threshold. */
  lemma ClosestCoverageOperators(rows: seq<Row>, maxDist: real, opId: int)
    ensures HasRow(ClosestCoverage(rows, maxDist), opId) <==> HasRowWithin(rows, opId, maxDist)
  {
    var result := ClosestCoverage(rows, maxDist);
    if r :| r in result && r.operator.id == opId {
      ClosestCoverageMembership(rows, maxDist, r);
    }
    if HasRowWithin(rows, opId, maxDist) {
      var w :| w in rows && w.operator.id == opId && w.dist < maxDist;
      var q := BelowThreshold(rows, maxDist);
      BelowThresholdMembership(rows, maxDist, w);
      assert w in q && w.operator.id == opId;
      MinDistanceIsMinimum(q, opId);
      var m := MinDistance(q, opId);
      var c :| c in q && c.operator.id == opId && c.dist == m.value;
      MinDistanceOfClosest(rows, maxDist, c);
      BelowThresholdMembership(rows, maxDist, c);
      ClosestCoverageMembership(rows, maxDist, c);
      assert c in result && c.operator.id == opId;
    }
  }

  /** The result is ordered by operator, then by distance. */
  lemma ClosestCoverageOrdered(rows: seq<Row>, maxDist: real)
    ensures Sorted(ClosestCoverage(rows, maxDist))
  {
  }

  /** The result is a sub-multiset of the input. */
  lemma ClosestCoverageSubMultiset(rows: seq<Row>, maxDist: real)
    ensures multiset(ClosestCoverage(rows, maxDist)) <= multiset(rows)
  {
    forall r ensures multiset(ClosestCoverage(rows, maxDist))[r] <= multiset(rows)[r] {
      ClosestCoverageCount(rows, maxDist, r);
    }
  }

  /** With no row under the threshold (in particular with no rows at all) the result is empty. */
  lemma ClosestCoverageEmpty(rows: seq<Row>, maxDist: real)
    requires forall r :: r in rows ==> r.dist >= maxDist
    ensures ClosestCoverage(rows, maxDist) == []
  {
    var result := ClosestCoverage(rows, maxDist);
    if result != [] {
      ClosestCoverageMembership(rows, maxDist, result[0]);
      assert false;
    }
  }
}
