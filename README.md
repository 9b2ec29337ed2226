# Operator coverage service: a verified model

The service answers one question: which mobile operators cover a given address, and with which network generations (2G, 3G, 4G). It is a Django project with PostGIS, and this model covers three parts of it.

1. **Nearest coverage per operator.** `Coverage.get_closest_coverage` exists in the `papernest` and `papernest_test` apps. Every coverage point gets its planar distance to the query point. The rule keeps the points strictly nearer than 200 metres. For each operator it then keeps every point whose distance equals that operator's minimum among the kept points, so exact ties all survive. It orders the result by operator id, then by distance.
2. **The survey-file reader.** `process_init_file`, `operator` and `skip_comments` live in `operators/scripts/utils.py`. The header line is dropped. Each later line is stripped and split on `;`. Fields 1 and 2 go through Python's `int()`, and a `ValueError` skips the line. A line too short to index raises `IndexError`, which escapes. Each flag is set by the exact text `1`. `skip_comments` drops the lines whose stripped form starts with `#`.
3. **The coverage endpoint.** `operators_cvg` in the `papernest_test` app:
   - a request that is not a GET gets 405;
   - a request without `q` gets 400;
   - otherwise the address is geocoded, the nearest coverage rows are selected, and the rows are folded into a map from operator name to `{2G, 3G, 4G}`, a later row overwriting an earlier one.

Modules:

- `Wrappers`: `Option` and `Result`.
- `PyText`: the Python string built-ins the reader depends on:
  - `str.isspace`, `str.strip`, `str.startswith` and `str.split(sep)`;
  - `int()` on a string: surrounding whitespace except U+001C to U+001F (which `isspace()` accepts but `int()` refuses anywhere in the text), one sign, ASCII digits grouped by single underscores, at most 4300 digits (CPython's default `INT_MAX_STR_DIGITS`);
  - `str()` of an `int`, which Python writes only up to the same 4300 digits.
- `CoverageSelection`: the selection rule over rows that already carry their distance, proved against the reference predicate `IsClosest`.
- `PapernestModels` and `PapernestTestModels`: the two apps' `get_closest_coverage`. The first uses the class constants 4326, 3857 and 200, the second the literals. A lemma shows they agree.
- `SurveyUtils`: the reader. `ParseLine` is the body of the loop's `try` as a function of one line. `ReadDataLines` is the loop over the data lines, proved equal to the function `ProcessLines` for any line parser. `ProcessInitFile` drops the header and runs that loop with `ParseLine`. The lemmas about the loop are stated about `ProcessLines`.
- `PapernestTestViews`: the endpoint. `OperatorsCvg` does the request checks and the geocoder call. `AssembleResponse` is its loop that fills the response dict, proved equal to the function `CoverageMap`.

Distances are `real`. A row carries its joined `Operator` (id and name), because the endpoint keys its map by the name.

The concrete rows in the example lemmas are illustrative. Their operators, flags and expected output follow the `papernest` app's tests (`operators/tests/test_models.py` and `operators/tests/test_views.py`). No test of the `papernest_test` view is part of this model, so the `papernest` view test stands in for it: the example response lemmas run the `papernest_test` selection, which `SameRuleAsPapernest` shows equal to the `papernest` one. Their distances stand in for the test data file, which is not part of this model.

## Model

| member | source | states |
|---|---|---|
| CoverageSelection.SortedCons | django_services/papernest/operators/models.py:67 | a row that does not come after the head of an ordered sequence can be put in front of it |
| CoverageSelection.Insert | django_services/papernest/operators/models.py:67 | inserting a row into a sequence ordered by (operator id, distance) keeps it ordered and adds exactly that row |
| CoverageSelection.OrderByOperatorDistance | django_services/papernest/operators/models.py:67 | the result is a permutation of the input (same multiset), ordered by operator id and then distance |
| CoverageSelection.BelowThresholdCount | django_services/papernest/operators/models.py:55 | the threshold filter keeps every copy of a row strictly under the threshold and drops every other row |
| CoverageSelection.BelowThresholdMembership | django_services/papernest/operators/models.py:55 | a row passes the threshold filter iff it is an input row with distance strictly below the threshold |
| CoverageSelection.MinDistanceIsMinimum | django_services/papernest/operators/models.py:59-63 | the correlated subquery is NULL iff the operator has no row; otherwise some row of that operator has that distance and none has less |
| CoverageSelection.AtOperatorMinimumCount | django_services/papernest/operators/models.py:65-66 | the equality filter keeps every copy of a row whose distance equals its operator's subquery value, and nothing else |
| CoverageSelection.MinDistanceOfClosest | django_services/papernest/operators/models.py:59-66 | for a row under the threshold, equalling the subquery value is the same as being nearest among its operator's qualifying rows |
| CoverageSelection.ClosestCoverageCount | django_services/papernest/operators/models.py:48-67 | each row occurs in the result exactly as often as in the input if it is nearest for its operator under the threshold, and never otherwise; so tied rows are all kept |
| CoverageSelection.ClosestCoverageMembership | django_services/papernest/operators/models.py:48-67 | a row is returned iff it is an input row that is under the threshold and nearest among its operator's qualifying rows |
| CoverageSelection.ClosestCoverageOperators | django_services/papernest/operators/models.py:55-66 | an operator has a returned row iff it has an input row strictly under the threshold |
| CoverageSelection.ClosestCoverageOrdered | django_services/papernest/operators/models.py:67 | the result is ordered by operator id, then distance |
| CoverageSelection.ClosestCoverageSubMultiset | django_services/papernest/operators/models.py:48-67 | the result is a sub-multiset of the input: rows are only filtered and reordered, never altered |
| CoverageSelection.ClosestCoverageEmpty | django_services/papernest/operators/models.py:55 | with no row under the threshold, including no rows at all, the result is empty |
| PapernestModels.GetClosestCoverage | django_services/papernest/operators/models.py:29-69 | all returned distances are below `MAX_DIST_METERS`; membership iff nearest per operator; an operator appears iff it has a row under 200; multiplicities are kept; sub-multiset; ordered |
| PapernestModels.ThresholdBoundary | django_services/papernest/operators/models.py:31-55 | a row at exactly 200 is excluded; one at 199.999 is returned |
| PapernestModels.ExampleBelowThreshold | django_services/papernest/operators/tests/test_models.py:37-40 | on the example rows, the threshold filter keeps the four rows under 200 in their order |
| PapernestModels.ExampleAtOperatorMinimum | django_services/papernest/operators/tests/test_models.py:37-40 | on the example's qualifying rows, the subquery filter keeps one row per operator, its nearest |
| PapernestModels.ExampleOrder | django_services/papernest/operators/tests/test_models.py:41-75 | the kept rows come out in the order Orange (20801), SFR (20810), Free (20815) |
| PapernestModels.ThreeNearbyOperators | django_services/papernest/operators/tests/test_models.py:37-86 | a query near three operators yields one row per operator, each that operator's own nearest point with its flags; the far operator is absent |
| PapernestModels.FarFromEverything | django_services/papernest/operators/tests/test_models.py:88-91 | a query point far from every coverage point gets no rows |
| PapernestTestModels.GetClosestCoverage | django_services/papernest_test/operators/models.py:37-60 | the same rule with the literal 200: membership iff nearest per operator, operator presence iff a row under 200, sub-multiset, ordered, empty when nothing is under 200 |
| PapernestTestModels.SameRuleAsPapernest | django_services/papernest_test/operators/models.py:39-58 | the two apps give the same result on every input |
| PyText.TrimStart | django_services/papernest/operators/scripts/utils.py:25 | drops exactly the leading whitespace: the result is a suffix, everything dropped is whitespace, the result does not start with whitespace |
| PyText.TrimEnd | django_services/papernest/operators/scripts/utils.py:25 | drops exactly the trailing whitespace, symmetrically |
| PyText.Strip | django_services/papernest/operators/scripts/utils.py:25 | `strip()` never lengthens; the result neither starts nor ends with whitespace; an empty result means the input was all whitespace |
| PyText.StripUnchanged | django_services/papernest/operators/scripts/utils.py:25 | a string with non-space ends is its own strip |
| PyText.StripNewline | django_services/papernest/operators/scripts/utils.py:24-25 | stripping a line read with its newline gives back the line's text |
| PyText.Split | django_services/papernest/operators/scripts/utils.py:25 | `split(";")` gives at least one field and no field contains the separator |
| PyText.JoinEnds | django_services/papernest/operators/scripts/utils.py:25 | the first and last characters of joined fields are those of the first and last fields |
| PyText.JoinSplit | django_services/papernest/operators/scripts/utils.py:25 | joining the fields of a split gives the string back: splitting loses nothing |
| PyText.SplitPiece | django_services/papernest/operators/scripts/utils.py:25 | a separator-free prefix followed by the separator splits off as exactly one field |
| PyText.SplitJoin | django_services/papernest/operators/scripts/utils.py:25 | splitting joined separator-free fields gives the same fields back |
| PyText.DigitChar | django_services/papernest/operators/scripts/utils.py:27-28 | the character of a decimal digit is a digit with that value |
| PyText.NatToString | django_services/papernest/operators/scripts/utils.py:27-28 | the decimal text of a natural number is non-empty and all digits |
| PyText.NatToStringValue | django_services/papernest/operators/scripts/utils.py:27-28 | reading the decimal text of a natural number gives the number back |
| PyText.NatToStringIsDigitGroup | django_services/papernest/operators/scripts/utils.py:27-28 | the decimal text of a natural number is a digit group `int()` accepts |
| PyText.ParseIntOfDigitGroup | django_services/papernest/operators/scripts/utils.py:27-28 | `int()` of a digit group is its decimal value when it has at most 4300 digits, and raises `ValueError` when it has more |
| PyText.ParseIntOfNegatedDigitGroup | django_services/papernest/operators/scripts/utils.py:27-28 | `int()` of `-` followed by a digit group is the negated value when the group has at most 4300 digits, and raises `ValueError` otherwise |
| PyText.ParseIntToString | django_services/papernest/operators/scripts/utils.py:27-28 | `int(str(i)) == i` for every integer whose decimal text has at most 4300 digits (where `str(i)` is defined); the text of a longer one is refused by `int()` |
| PyText.ParseIntOfSeparator | django_services/papernest/operators/scripts/utils.py:27-30 | `int()` of a field holding any of U+001C to U+001F raises `ValueError`, so the line is skipped |
| PyText.ParseIntBlank | django_services/papernest/operators/scripts/utils.py:27-30 | `int()` of an empty or blank field raises `ValueError` |
| SurveyUtils.Operator | django_services/papernest/operators/scripts/utils.py:35-46 | building a record fails with `IndexError` iff the line has fewer than six fields |
| SurveyUtils.ReadDataLines | django_services/papernest/operators/scripts/utils.py:24-31 | the loop's outcome is exactly `ProcessLines`: the records of the parsed lines in order, or the first exception raised |
| SurveyUtils.ProcessInitFile | django_services/papernest/operators/scripts/utils.py:19-32 | an empty file gives no records; otherwise the result is exactly `ProcessLines` with `ParseLine` over every line but the first, so the header never yields a record |
| SurveyUtils.PrependNothing | django_services/papernest/operators/scripts/utils.py:20 | collecting nothing before a run leaves its outcome unchanged |
| SurveyUtils.ProcessLinesStep | django_services/papernest/operators/scripts/utils.py:24-31 | one iteration: a skipped line moves on, a raising line ends with its exception, a parsed line puts its record before the rest |
| SurveyUtils.PrependTwice | django_services/papernest/operators/scripts/utils.py:31 | appending a record to the list and then collecting the rest equals collecting the record and the rest at once |
| SurveyUtils.ProcessLinesAppend | django_services/papernest/operators/scripts/utils.py:24-31 | lines are processed independently and in order: the outcome on `a + b` is that of `a` followed by that of `b`, the first exception winning |
| SurveyUtils.ProcessLinesFailure | django_services/papernest/operators/scripts/utils.py:26-31 | reading fails iff some line raises; skipped lines never stop it |
| SurveyUtils.ProcessLinesRecords | django_services/papernest/operators/scripts/utils.py:24-31 | on success there is exactly one record per parsed line, and the k-th parsed line's record is the k-th record: records come out in line order |
| SurveyUtils.CountParsedPrefix | django_services/papernest/operators/scripts/utils.py:24-31 | a parsed line has fewer parsed lines before it than the whole file has |
| SurveyUtils.ParseLineAccepts | django_services/papernest/operators/scripts/utils.py:25-31 | a line with six fields whose fields 1 and 2 are integers gives the record of its fields and transformed point |
| SurveyUtils.ParseLineSkips | django_services/papernest/operators/scripts/utils.py:26-30 | a line whose field 1, or else field 2, is not an integer is skipped |
| SurveyUtils.ParseLineRaises | django_services/papernest/operators/scripts/utils.py:26-31 | a line with fewer than two fields, or with an integer field 1 and no field 2, or with integer coordinates and fewer than six fields, raises `IndexError` |
| SurveyUtils.IntToStringNoSeparator | django_services/papernest/operators/scripts/utils.py:25 | the decimal text of an integer contains no `;` |
| SurveyUtils.OperatorOfFlags | django_services/papernest/operators/scripts/utils.py:35-46 | the fields of a survey line whose flags are written `1`/`0` give the record with exactly those flags |
| SurveyUtils.SurveyFieldsCoordinates | django_services/papernest/operators/scripts/utils.py:27-28 | the coordinate fields of a survey line read back as its coordinates, for coordinates `str()` can write |
| SurveyUtils.SurveyLineFields | django_services/papernest/operators/scripts/utils.py:25 | a survey line read with its newline, stripped and split on `;`, gives back its six fields |
| SurveyUtils.SurveyLineRoundTrip | django_services/papernest/operators/scripts/utils.py:24-46 | a well-formed survey line, newline included, with coordinates of at most 4300 digits, gives the record of its operator id, the transformed point and its three flags |
| SurveyUtils.FlagIsExactlyOne | django_services/papernest/operators/scripts/utils.py:36-45 | each flag is set iff its field is exactly `1`; the operator id is field 0 verbatim; latitude is `coordinates[0]` and longitude `coordinates[1]` |
| SurveyUtils.SkipCommentsMembership | django_services/papernest/operators/scripts/utils.py:49-52 | a line is kept iff it is an input line whose stripped form does not start with `#` |
| SurveyUtils.SkipCommentsAppend | django_services/papernest/operators/scripts/utils.py:49-52 | the filter works line by line: it distributes over concatenation, so order is kept |
| SurveyUtils.SkipCommentsIdempotent | django_services/papernest/operators/scripts/utils.py:49-52 | skipping comments twice equals skipping them once |
| SurveyUtils.SkipCommentsLength | django_services/papernest/operators/scripts/utils.py:49-52 | the output is never longer than the input, and is as long iff no line is a comment |
| PapernestTestViews.QueryGet | django_services/papernest_test/operators/views.py:26 | `request.GET.get` is `None` iff the key is absent; otherwise it is the value of the last occurrence of the key |
| PapernestTestViews.AssembleResponse | django_services/papernest_test/operators/views.py:33-39 | the dict filled row by row is `CoverageMap` of the selection result |
| PapernestTestViews.OperatorsCvg | django_services/papernest_test/operators/views.py:23-41 | non-GET gives 405 with `["GET"]` and no geocoder call; a missing `q` gives 400 with its message and no geocoder call; the status is 405 iff the method is not GET and 400 iff it is a GET without `q`; a present `q`, even empty, is geocoded once; a geocoder failure gives 500; otherwise a 200 whose body is the fold of the selection result |
| PapernestTestViews.CoverageMapKeys | django_services/papernest_test/operators/views.py:33-39 | the response keys are exactly the operator names of the selected rows |
| PapernestTestViews.CoverageMapLastWins | django_services/papernest_test/operators/views.py:34-39 | each value is the flags of a single row with that name, the last such row |
| PapernestTestViews.CoverageMapHasName | django_services/papernest_test/operators/views.py:33-39 | a name is a key iff some folded row carries it |
| PapernestTestViews.ResponseOperatorsWithin | django_services/papernest_test/operators/views.py:31-39 | every key names an operator with a row under 200 |
| PapernestTestViews.ResponseOperatorsAll | django_services/papernest_test/operators/views.py:31-39 | every operator with a row under 200 is a key |
| PapernestTestViews.ResponseOperators | django_services/papernest_test/operators/views.py:31-39 | an operator name is in the response iff one of that operator's rows is under 200 |
| PapernestTestViews.ResponseFlags | django_services/papernest_test/operators/views.py:31-39 | each value is the flags of one row of that operator that is nearest under the threshold, never a mix of rows |
| PapernestTestViews.EmptySelectionEmptyBody | django_services/papernest_test/operators/views.py:33-41 | with nothing under 200 the body is the empty map, a success and not an error |
| PapernestTestViews.ExampleBody | django_services/papernest/operators/tests/test_views.py:54-70 | folding the example selection gives the expected map for Orange, SFR and Free |
| PapernestTestViews.ThreeNearbyOperatorsResponse | django_services/papernest/operators/tests/test_views.py:47-73 | the example query's response maps Orange, SFR and Free to the expected flags, and Bouygue is absent |

## Left out

- `CoordTransformer` (inverse Lambert conformal conic through pyproj) is floating-point work in a foreign library. It is the `transform` parameter of the reader, so its exact float outputs in the utility tests are not modelled.
- `user_location.transform` to Web Mercator and the PostGIS `Transform`/`Distance` are database-side float geometry. Each row arrives with its distance already computed.
- `get_coordinates` is an HTTP call to the address API. It is the `geocode` parameter of `OperatorsCvg`. A failing lookup raises inside the view, which the model records as a 500 response; the empty-result case is not singled out.
- Coordinate order is not modelled; coordinates pass through unread. The papernest_test geocoder returns the raw `[lng, lat]` pair, while `get_closest_coverage` reads index 1 as the longitude, so that app swaps the axes.
- Ties in `order_by("operator_id", "distance")` are left unordered by SQL. The model uses a stable sort, so one fixed tie order stands for all that the database may choose. Which tied row the endpoint's map ends up holding is stated only up to "one of the nearest rows" in `ResponseFlags`.
- `PapernestTestViews.ResponseOperators` assumes every row of one operator id carries the same operator name. This is what the foreign-key join guarantees.
- `PapernestTestViews.ResponseOperatorsAll` makes the same assumption, `OperatorsConsistent`, for the same reason.
- File I/O is left out: `open`, `readline` and iteration over the file. The reader takes the file as its sequence of lines, each with its newline, so universal-newline translation is not modelled.
- `ParseInt` accepts only ASCII digits. Python's `int()` also accepts other Unicode decimal digits.
- `ParseInt` and `IntToString` use CPython's default digit limit of 4300 as a constant. A limit changed through `sys.set_int_max_str_digits` or `PYTHONINTMAXSTRDIGITS`, and Python versions that predate the limit, are not modelled.
- `IndexView` (a template listing of all operators), `process_init_data.py` and `init_db.py` (CSV writing and ORM bulk loading) are left out. So are settings, urls, middleware, migrations, the polls app, and everything under `pulumi/` and `iac/`. All of these are I/O, framework configuration or cloud provisioning.
- `PapernestTestViews.CoverageMap`: a Python dict keeps each key where it was first inserted, and `JsonResponse` writes the keys in that order. A `map` has no order, so the key order of the JSON object is not modelled. The view's callers compare parsed JSON, which has no order either.
- Django's request and response objects are reduced to what the view reads and returns: the method, the query pairs, and the status with its body.
