/**
 * The `operators_cvg` view of the `papernest_test` app: a GET request with a
 * free-text address `q` is geocoded, the nearest coverage rows are selected, and
 * the response maps each operator name to its 2G/3G/4G flags.
 *
 * The geocoder (an HTTP call) and the coverage table annotated with distances
 * to a point (the database) are parameters.
 */
module PapernestTestViews {
  import opened Wrappers
  import opened CoverageSelection
  import PapernestModels
  import PapernestTestModels

  /** A point as the geocoder returns it; its components are passed through unread. */
  type Coordinates = (real, real)

  /** What the view reads of an `HttpRequest`: the method and the query-string pairs, in order. */
  datatype Request = Request(httpMethod: string, query: seq<(string, string)>)

  /** The JSON object `{"2G": ..., "3G": ..., "4G": ...}`. */
  datatype Generations = Generations(has2G: bool, has3G: bool, has4G: bool)

  datatype Response =
    | NotAllowed(permittedMethods: seq<string>)
    | BadRequest(message: string)
    | ServerError
    | Json(body: map<string, Generations>)
  {
    /**
     * The HTTP status: `HttpResponseNotAllowed`, `HttpResponseBadRequest`, an
     * uncaught exception, `JsonResponse`.
     */
    function StatusCode(): int {
      match this
      case NotAllowed(_) => 405
      case BadRequest(_) => 400
      case ServerError => 500
      case Json(_) => 200
    }
  }

  const MISSING_Q: string := "Missing required parameter: 'q'"

  /** `request.GET.get(key)`: the last value given for `key`, or `None` when there is none. */
  function QueryGet(query: seq<(string, string)>, key: string): (v: Option<string>)
    ensures v.None? <==> forall k :: 0 <= k < |query| ==> query[k].0 != key
    ensures v.Some? ==> exists k :: 0 <= k < |query| && query[k] == (key, v.value) &&
                                    forall j :: k < j < |query| ==> query[j].0 != key
  {
    if query == [] then None
    else if query[|query| - 1].0 == key then Some(query[|query| - 1].1)
    else QueryGet(query[..|query| - 1], key)
  }

  function GenerationsOf(r: Row): Generations {
    Generations(r.g2, r.g3, r.g4)
  }

  /**
   * The response body built from `rows` in order: each row writes its operator's
   * entry. A `map` keeps no key order, so the order in which the JSON object
   * lists its keys is not modelled.
   */
  function CoverageMap(rows: seq<Row>): map<string, Generations> {
    if rows == [] then map[]
    else
      var last := rows[|rows| - 1];
      CoverageMap(rows[..|rows| - 1])[last.operator.name := GenerationsOf(last)]
  }

  /** The response dict of `operators_cvg`, filled in place row by row. */
  method AssembleResponse(closestCvgs: seq<Row>) returns (body: map<string, Generations>)
    ensures body == CoverageMap(closestCvgs)
  {
    body := map[];
    for i := 0 to |closestCvgs|
      invariant body == CoverageMap(closestCvgs[..i])
    {
      var cvg := closestCvgs[i];
      assert closestCvgs[..i + 1][..i] == closestCvgs[..i];
      body := body[cvg.operator.name := Generations(cvg.g2, cvg.g3, cvg.g4)];
    }
    assert closestCvgs[..|closestCvgs|] == closestCvgs;
  }

  /**
   * `operators_cvg`. `lookups` lists the queries sent to the geocoder: none
   * when the request is refused.
   */
  method OperatorsCvg(request: Request, geocode: string -> Option<Coordinates>, coverageAt: Coordinates -> seq<Row>)
    returns (response: Response, lookups: seq<string>)
    ensures request.httpMethod != "GET" ==> response == NotAllowed(["GET"]) && lookups == []
    ensures request.httpMethod == "GET" && QueryGet(request.query, "q").None? ==>
              response == BadRequest(MISSING_Q) && lookups == []
    ensures request.httpMethod == "GET" && QueryGet(request.query, "q").Some? ==>
              && lookups == [QueryGet(request.query, "q").value]
              && response == (match geocode(QueryGet(request.query, "q").value)
                              case None => ServerError
                              case Some(c) => Json(CoverageMap(PapernestTestModels.GetClosestCoverage(coverageAt(c)))))
    ensures response.StatusCode() == 405 <==> request.httpMethod != "GET"
    ensures response.StatusCode() == 400 <==> request.httpMethod == "GET" && QueryGet(request.query, "q").None?
  {
    if request.httpMethod != "GET" {
      return NotAllowed(["GET"]), [];
    }
    var query := QueryGet(request.query, "q");
    if query.None? {
      return BadRequest(MISSING_Q), [];
    }
    lookups := [query.value];
    var coordinates := geocode(query.value);
    if coordinates.None? {
      return ServerError, lookups;
    }
    var closestCvgs := PapernestTestModels.GetClosestCoverage(coverageAt(coordinates.value));
    var body := AssembleResponse(closestCvgs);
    response := Json(body);
  }

  // ---------------------------------------------------------------------------
  // What the response holds.

  /** The keys are exactly the operator names of the rows. */
  lemma {:induction false} CoverageMapKeys(rows: seq<Row>)
    ensures CoverageMap(rows).Keys == set r | r in rows :: r.operator.name
  {
    if rows != [] {
      var init := rows[..|rows| - 1];
      CoverageMapKeys(init);
      assert rows == init + [rows[|rows| - 1]];
      assert forall r :: r in rows <==> r in init || r == rows[|rows| - 1];
    }
  }

  /** Each entry holds the flags of the last row with that operator name. */
  lemma {:induction false} CoverageMapLastWins(rows: seq<Row>, name: string)
    requires name in CoverageMap(rows)
    ensures exists k :: 0 <= k < |rows| && rows[k].operator.name == name &&
                        CoverageMap(rows)[name] == GenerationsOf(rows[k]) &&
                        forall j :: k < j < |rows| ==> rows[j].operator.name != name
  {
    var last := rows[|rows| - 1];
    if last.operator.name != name {
      var init := rows[..|rows| - 1];
      CoverageMapLastWins(init, name);
      var k :| 0 <= k < |init| && init[k].operator.name == name &&
               CoverageMap(init)[name] == GenerationsOf(init[k]) &&
               forall j :: k < j < |init| ==> init[j].operator.name != name;
      assert rows[k] == init[k];
      assert forall j :: k < j < |init| ==> rows[j] == init[j];
    }
  }

  /** Every row joined with the same operator id carries the same operator: the foreign key. */
  ghost predicate OperatorsConsistent(rows: seq<Row>) {
    forall a, b :: a in rows && b in rows && a.operator.id == b.operator.id ==> a.operator == b.operator
  }

  /** A name is a key exactly when some row carries it. */
  lemma CoverageMapHasName(rows: seq<Row>, name: string)
    ensures name in CoverageMap(rows) <==> exists r :: r in rows && r.operator.name == name
  {
    CoverageMapKeys(rows);
    assert name in CoverageMap(rows).Keys <==> name in set r | r in rows :: r.operator.name;
  }

  /** Every key names an operator with a row under 200. */
  lemma ResponseOperatorsWithin(rows: seq<Row>, name: string)
    requires name in CoverageMap(PapernestTestModels.GetClosestCoverage(rows))
    ensures exists r :: r in rows && r.operator.name == name && r.dist < 200.0
  {
    var closest := PapernestTestModels.GetClosestCoverage(rows);
    CoverageMapHasName(closest, name);
    var c :| c in closest && c.operator.name == name;
    assert c in rows && IsClosest(rows, 200.0, c);
  }

  /** Every operator with a row under 200 is a key. */
  lemma ResponseOperatorsAll(rows: seq<Row>, r: Row)
    requires OperatorsConsistent(rows)
    requires r in rows && r.dist < 200.0
    ensures r.operator.name in CoverageMap(PapernestTestModels.GetClosestCoverage(rows))
  {
    var closest := PapernestTestModels.GetClosestCoverage(rows);
    assert HasRowWithin(rows, r.operator.id, 200.0);
    assert HasRow(closest, r.operator.id);
    var c :| c in closest && c.operator.id == r.operator.id;
    assert c in rows;
    CoverageMapHasName(closest, r.operator.name);
  }

  /**
   * An operator name is a key of the response if and only if one of that
   * operator's rows is within 200 metres.
   */
  lemma ResponseOperators(rows: seq<Row>, name: string)
    requires OperatorsConsistent(rows)
    ensures name in CoverageMap(PapernestTestModels.GetClosestCoverage(rows)) <==>
            exists r :: r in rows && r.operator.name == name && r.dist < 200.0
  {
    if name in CoverageMap(PapernestTestModels.GetClosestCoverage(rows)) {
      ResponseOperatorsWithin(rows, name);
    }
    if exists r :: r in rows && r.operator.name == name && r.dist < 200.0 {
      var r :| r in rows && r.operator.name == name && r.dist < 200.0;
      ResponseOperatorsAll(rows, r);
    }
  }

  /**
   * The value reported for an operator is the flags of one of its nearest
   * rows, never a mix of several rows.
   */
  lemma ResponseFlags(rows: seq<Row>, name: string)
    requires name in CoverageMap(PapernestTestModels.GetClosestCoverage(rows))
    ensures exists r :: r in rows && r.operator.name == name && IsClosest(rows, 200.0, r) &&
                        CoverageMap(PapernestTestModels.GetClosestCoverage(rows))[name] == GenerationsOf(r)
  {
    var closest := PapernestTestModels.GetClosestCoverage(rows);
    CoverageMapLastWins(closest, name);
    var k :| 0 <= k < |closest| && closest[k].operator.name == name &&
             CoverageMap(closest)[name] == GenerationsOf(closest[k]) &&
             forall j :: k < j < |closest| ==> closest[j].operator.name != name;
    assert closest[k] in closest;
  }

  /** Nothing selected: a successful response with an empty body. */
  lemma EmptySelectionEmptyBody(rows: seq<Row>)
    requires forall r :: r in rows ==> r.dist >= 200.0
    ensures CoverageMap(PapernestTestModels.GetClosestCoverage(rows)) == map[]
  {
  }

  /** The body built from the test suite's selection. */
  lemma ExampleBody()
    ensures CoverageMap([PapernestModels.Near5, PapernestModels.Near3, PapernestModels.Near1])
            == map["Orange" := Generations(true, true, false),
                   "SFR" := Generations(false, false, false),
                   "Free" := Generations(true, false, true)]
  {
    var closest := [PapernestModels.Near5, PapernestModels.Near3, PapernestModels.Near1];
    assert closest[..2] == [PapernestModels.Near5, PapernestModels.Near3];
    assert closest[..2][..1] == [PapernestModels.Near5];
    assert [PapernestModels.Near5][..0] == [];
    assert CoverageMap([PapernestModels.Near5]) == map["Orange" := Generations(true, true, false)];
    assert CoverageMap(closest[..2]) == map["Orange" := Generations(true, true, false),
                                            "SFR" := Generations(false, false, false)];
  }

  /**
   * The test suite's query: Orange, SFR and Free each report their own nearest
   * point's flags; Bouygue, with nothing within 200 metres, is absent.
   */
  lemma ThreeNearbyOperatorsResponse()
    ensures CoverageMap(PapernestTestModels.GetClosestCoverage([
              PapernestModels.Near1, PapernestModels.Far2, PapernestModels.Near3,
              PapernestModels.Out4, PapernestModels.Near5, PapernestModels.Out6]))
            == map["Orange" := Generations(true, true, false),
                   "SFR" := Generations(false, false, false),
                   "Free" := Generations(true, false, true)]
  {
    var rows := [PapernestModels.Near1, PapernestModels.Far2, PapernestModels.Near3,
                 PapernestModels.Out4, PapernestModels.Near5, PapernestModels.Out6];
    PapernestTestModels.SameRuleAsPapernest(rows);
    PapernestModels.ThreeNearbyOperators();
    ExampleBody();
  }
}
