/**
 * The survey-file reader of `operators/scripts/utils.py`. A survey file holds a
 * header line and then one line per coverage point:
 *
 *   operator_id;x;y;2G;3G;4G
 *
 * where x and y are Lambert-93 metres and the flags are `0` or `1`. Each accepted
 * line becomes one record with the point converted to (latitude, longitude).
 * The file is given as its sequence of lines; the coordinate conversion
 * (`CoordTransformer.transform`) is a parameter.
 */
module SurveyUtils {
  import opened Wrappers
  import opened PyText

  /** The dict `operator` builds for one accepted line. */
  datatype InitRecord = InitRecord(operatorId: string, latitude: real, longitude: real, g2: bool, g3: bool, g4: bool)

  /**
   * The exception that escapes `process_init_file`: indexing past the fields of a
   * short line. `ValueError` from `int()` is caught and never escapes.
   */
  datatype ParseError = IndexError

  /** `CoordTransformer.transform(x, y)`: Lambert-93 metres to (latitude, longitude). */
  type Transform = (int, int) -> (real, real)

  /** `operator(fields, coordinates)`: the record of one accepted line. */
  function Operator(fields: seq<string>, coordinates: (real, real)): (r: Result<InitRecord, ParseError>)
    ensures r.Failure? <==> |fields| < 6
  {
    if |fields| < 6 then Failure(IndexError)
    else
      var is2g := fields[3] == "1";
      var is3g := fields[4] == "1";
      var is4g := fields[5] == "1";
      Success(InitRecord(fields[0], coordinates.0, coordinates.1, is2g, is3g, is4g))
  }

  /** What the loop body of `process_init_file` does with one line. */
  datatype LineOutcome = Skipped | Parsed(record: InitRecord) | Raised(error: ParseError)

  /**
   * One line: strip it, split it on `;`, parse fields 1 and 2 with `int()`
   * (field 1 is parsed before field 2 is read), skip the line on a `ValueError`,
   * otherwise transform the point and build the record.
   */
  function ParseLine(line: string, transform: Transform): LineOutcome {
    var fields := Split(Strip(line), ';');
    if |fields| < 2 then Raised(IndexError)
    else match ParseInt(fields[1])
      case None => Skipped
      case Some(x) =>
        if |fields| < 3 then Raised(IndexError)
        else match ParseInt(fields[2])
          case None => Skipped
          case Some(y) =>
            match Operator(fields, transform(x, y))
            case Success(record) => Parsed(record)
            case Failure(e) => Raised(e)
  }

  /** Prefixes the records already collected to the outcome of the remaining lines. */
  function Prepend(done: seq<InitRecord>, rest: Result<seq<InitRecord>, ParseError>): Result<seq<InitRecord>, ParseError> {
    match rest
    case Success(records) => Success(done + records)
    case Failure(e) => Failure(e)
  }

  lemma PrependNothing(rest: Result<seq<InitRecord>, ParseError>)
    ensures Prepend([], rest) == rest
  {
    if rest.Success? {
      assert [] + rest.value == rest.value;
    }
  }

  /** `ParseLine` with the transform fixed, as one function of the line. */
  function LineParser(transform: Transform): string -> LineOutcome {
    line => ParseLine(line, transform)
  }

  /**
   * The records of the data lines under the line parser `parse`, or the first
   * exception raised.
   */
  function ProcessLines(lines: seq<string>, parse: string -> LineOutcome): Result<seq<InitRecord>, ParseError> {
    if lines == [] then Success([])
    else match parse(lines[0])
      case Skipped => ProcessLines(lines[1..], parse)
      case Raised(e) => Failure(e)
      case Parsed(record) => Prepend([record], ProcessLines(lines[1..], parse))
  }

  /** One step of `ProcessLines` at position `i`. */
  lemma ProcessLinesStep(lines: seq<string>, i: nat, parse: string -> LineOutcome)
    requires i < |lines|
    ensures ProcessLines(lines[i..], parse) ==
              match parse(lines[i])
              case Skipped => ProcessLines(lines[i + 1..], parse)
              case Raised(e) => Failure(e)
              case Parsed(record) => Prepend([record], ProcessLines(lines[i + 1..], parse))
  {
    assert lines[i..][1..] == lines[i + 1..];
    assert lines[i..][0] == lines[i];
  }

  lemma PrependTwice(done: seq<InitRecord>, record: InitRecord, rest: Result<seq<InitRecord>, ParseError>)
    ensures Prepend(done, Prepend([record], rest)) == Prepend(done + [record], rest)
  {
    if rest.Success? {
      assert done + ([record] + rest.value) == (done + [record]) + rest.value;
    }
  }

  /**
   * The loop of `process_init_file` over the data lines: each line goes through
   * `parse` (the body of its `try`); a skipped line continues, an exception
   * ends the loop, a record is appended to the list.
   */
  method ReadDataLines(lines: seq<string>, parse: string -> LineOutcome) returns (result: Result<seq<InitRecord>, ParseError>)
    ensures result == ProcessLines(lines, parse)
  {
    var initData: seq<InitRecord> := [];
    var i := 0;
    PrependNothing(ProcessLines(lines, parse));
    while i < |lines|
      invariant 0 <= i <= |lines|
      invariant ProcessLines(lines, parse) == Prepend(initData, ProcessLines(lines[i..], parse))
    {
      ProcessLinesStep(lines, i, parse);
      var outcome := parse(lines[i]);
      match outcome {
        case Skipped =>
        case Raised(e) =>
          return Failure(e);
        case Parsed(record) =>
          PrependTwice(initData, record, ProcessLines(lines[i + 1..], parse));
          initData := initData + [record];
      }
      i := i + 1;
    }
    assert lines[i..] == [];
    assert initData + [] == initData;
    result := Success(initData);
  }

  /**
   * `process_init_file`: the header line is read and dropped, then every other
   * line is parsed in order by `ParseLine`; the list is returned unless an
   * exception escapes.
   */
  method ProcessInitFile(lines: seq<string>, transform: Transform) returns (result: Result<seq<InitRecord>, ParseError>)
    ensures lines == [] ==> result == Success([])
    ensures lines != [] ==> result == ProcessLines(lines[1..], LineParser(transform))
  {
    if lines == [] {
      return Success([]);
    }
    result := ReadDataLines(lines[1..], LineParser(transform));
  }

  // ---------------------------------------------------------------------------
  // What the reader promises.

  /** The combined outcome of two consecutive runs of lines: the first exception wins. */
  function Then(first: Result<seq<InitRecord>, ParseError>, second: Result<seq<InitRecord>, ParseError>): Result<seq<InitRecord>, ParseError> {
    match first
    case Failure(e) => Failure(e)
    case Success(records) => Prepend(records, second)
  }

  /**
   * Lines are processed one after another and independently: the records of
   * `a + b` are those of `a` followed by those of `b`.
   */
  lemma {:induction false} ProcessLinesAppend(a: seq<string>, b: seq<string>, parse: string -> LineOutcome)
    ensures ProcessLines(a + b, parse) == Then(ProcessLines(a, parse), ProcessLines(b, parse))
  {
    if a == [] {
      assert a + b == b;
      PrependNothing(ProcessLines(b, parse));
    } else {
      assert (a + b)[0] == a[0];
      assert (a + b)[1..] == a[1..] + b;
      ProcessLinesAppend(a[1..], b, parse);
      if parse(a[0]).Parsed? && ProcessLines(a[1..], parse).Success? && ProcessLines(b, parse).Success? {
        var ra, rb := ProcessLines(a[1..], parse).value, ProcessLines(b, parse).value;
        assert [parse(a[0]).record] + (ra + rb) == ([parse(a[0]).record] + ra) + rb;
      }
    }
  }

  /** The reader fails exactly when some line raises; a skipped line never stops it. */
  lemma {:induction false} ProcessLinesFailure(lines: seq<string>, parse: string -> LineOutcome)
    ensures ProcessLines(lines, parse).Failure? <==>
            exists k :: 0 <= k < |lines| && parse(lines[k]).Raised?
  {
    if lines != [] {
      ProcessLinesFailure(lines[1..], parse);
      assert forall k :: 0 < k < |lines| ==> lines[k] == lines[1..][k - 1];
      if exists k :: 0 <= k < |lines[1..]| && parse(lines[1..][k]).Raised? {
        var k :| 0 <= k < |lines[1..]| && parse(lines[1..][k]).Raised?;
        assert parse(lines[k + 1]).Raised?;
      }
    }
  }

  /** The number of records is the number of lines that parse. */
  function CountParsed(lines: seq<string>, parse: string -> LineOutcome): nat {
    if lines == [] then 0
    else (if parse(lines[0]).Parsed? then 1 else 0) + CountParsed(lines[1..], parse)
  }

  /**
   * On success there is exactly one record per parsed line, and the record of
   * the k-th parsed line is the k-th record.
   */
  lemma {:induction false} ProcessLinesRecords(lines: seq<string>, parse: string -> LineOutcome)
    requires ProcessLines(lines, parse).Success?
    ensures |ProcessLines(lines, parse).value| == CountParsed(lines, parse)
    ensures forall k :: 0 <= k < |lines| && parse(lines[k]).Parsed? ==>
              && CountParsed(lines[..k], parse) < |ProcessLines(lines, parse).value|
              && ProcessLines(lines, parse).value[CountParsed(lines[..k], parse)] == parse(lines[k]).record
  {
    if lines != [] {
      ProcessLinesRecords(lines[1..], parse);
      var records := ProcessLines(lines, parse).value;
      forall k | 0 <= k < |lines| && parse(lines[k]).Parsed?
        ensures CountParsed(lines[..k], parse) < |records|
        ensures records[CountParsed(lines[..k], parse)] == parse(lines[k]).record
      {
        CountParsedPrefix(lines, k, parse);
        if k > 0 {
          assert lines[1..][k - 1] == lines[k];
          assert lines[1..][..k - 1] == lines[1..k];
        }
      }
    }
  }

  /** Counting the parsed lines before position `k` and those after it. */
  lemma {:induction false} CountParsedPrefix(lines: seq<string>, k: nat, parse: string -> LineOutcome)
    requires 0 <= k < |lines|
    ensures CountParsed(lines[..k], parse) ==
              if k == 0 then 0
              else (if parse(lines[0]).Parsed? then 1 else 0) + CountParsed(lines[1..k], parse)
    ensures parse(lines[k]).Parsed? ==> CountParsed(lines[..k], parse) < CountParsed(lines, parse)
  {
    if k > 0 {
      assert lines[..k][0] == lines[0];
      assert lines[..k][1..] == lines[1..k];
      CountParsedPrefix(lines[1..], k - 1, parse);
      assert lines[1..][..k - 1] == lines[1..k];
      assert lines[1..][k - 1] == lines[k];
    } else {
      if parse(lines[0]).Parsed? {
        assert CountParsed(lines, parse) >= 1;
      }
    }
  }

  // ---------------------------------------------------------------------------
  // One line.

  /** A line whose fields 1 and 2 are integers and that has all six fields gives its record. */
  lemma ParseLineAccepts(line: string, transform: Transform, x: int, y: int)
    requires |Split(Strip(line), ';')| >= 6
    requires ParseInt(Split(Strip(line), ';')[1]) == Some(x)
    requires ParseInt(Split(Strip(line), ';')[2]) == Some(y)
    ensures ParseLine(line, transform) == Parsed(Operator(Split(Strip(line), ';'), transform(x, y)).value)
  {
  }

  /** A line whose field 1, or else field 2, is not an integer is skipped. */
  lemma ParseLineSkips(line: string, transform: Transform)
    requires var fields := Split(Strip(line), ';');
             || (|fields| >= 2 && ParseInt(fields[1]).None?)
             || (|fields| >= 3 && ParseInt(fields[1]).Some? && ParseInt(fields[2]).None?)
    ensures ParseLine(line, transform) == Skipped
  {
  }

  /**
   * A line with fewer than two fields, or one whose field 1 parses and that has
   * no field 2, or one whose coordinates parse and that has fewer than six fields,
   * raises `IndexError`.
   */
  lemma ParseLineRaises(line: string, transform: Transform)
    requires var fields := Split(Strip(line), ';');
             || |fields| < 2
             || (|fields| == 2 && ParseInt(fields[1]).Some?)
             || (3 <= |fields| < 6 && ParseInt(fields[1]).Some? && ParseInt(fields[2]).Some?)
    ensures ParseLine(line, transform) == Raised(IndexError)
  {
    var fields := Split(Strip(line), ';');
    if 3 <= |fields| {
      var x, y := ParseInt(fields[1]).value, ParseInt(fields[2]).value;
      assert Operator(fields, transform(x, y)) == Failure(IndexError);
    }
  }

  /** How a flag is written in a survey file. */
  function FlagText(b: bool): string {
    if b then "1" else "0"
  }

  /** A survey line for one coverage point, as the survey files write it. */
  function SurveyLine(operatorId: string, x: int, y: int, g2: bool, g3: bool, g4: bool): string {
    Join(SurveyFields(operatorId, x, y, g2, g3, g4), ';')
  }

  lemma IntToStringNoSeparator(i: int)
    ensures ';' !in IntToString(i)
  {
    var s := IntToString(i);
    var digits := NatToString(if i < 0 then -i else i);
    if i < 0 {
      assert s == "-" + digits;
      assert forall k :: 0 <= k < |s| ==> s[k] == '-' || s[k] == digits[k - 1];
    }
    assert forall k :: 0 <= k < |s| ==> s[k] != ';';
  }

  /** The record of fields whose flags are written as survey files write them. */
  lemma OperatorOfFlags(operatorId: string, x: int, y: int, g2: bool, g3: bool, g4: bool, coordinates: (real, real))
    ensures Operator(SurveyFields(operatorId, x, y, g2, g3, g4), coordinates) ==
            Success(InitRecord(operatorId, coordinates.0, coordinates.1, g2, g3, g4))
  {
    assert FlagText(true) == "1";
    assert FlagText(false) != "1" by {
      assert FlagText(false)[0] == '0';
    }
  }

  /** The fields of a survey line, as the survey files write them. */
  function SurveyFields(operatorId: string, x: int, y: int, g2: bool, g3: bool, g4: bool): seq<string> {
    [operatorId, IntToString(x), IntToString(y), FlagText(g2), FlagText(g3), FlagText(g4)]
  }

  /** The coordinate fields of a survey line read back as its coordinates, when `str()` can write them. */
  lemma SurveyFieldsCoordinates(operatorId: string, x: int, y: int, g2: bool, g3: bool, g4: bool)
    requires StrDefined(x) && StrDefined(y)
    ensures var fields := SurveyFields(operatorId, x, y, g2, g3, g4);
            |fields| == 6 && ParseInt(fields[1]) == Some(x) && ParseInt(fields[2]) == Some(y)
  {
    var fields := SurveyFields(operatorId, x, y, g2, g3, g4);
    assert fields[1] == IntToString(x) && fields[2] == IntToString(y);
    ParseIntToString(x);
    ParseIntToString(y);
  }

  /** A survey line read with its newline, stripped and split, gives its fields back. */
  lemma SurveyLineFields(operatorId: string, x: int, y: int, g2: bool, g3: bool, g4: bool)
    requires ';' !in operatorId
    requires operatorId == [] || !IsSpace(operatorId[0])
    ensures Split(Strip(SurveyLine(operatorId, x, y, g2, g3, g4) + "\n"), ';') == SurveyFields(operatorId, x, y, g2, g3, g4)
  {
    var fields := SurveyFields(operatorId, x, y, g2, g3, g4);
    var line := SurveyLine(operatorId, x, y, g2, g3, g4);
    assert line == Join(fields, ';');
    IntToStringNoSeparator(x);
    IntToStringNoSeparator(y);
    assert forall k :: 0 <= k < |fields| ==> ';' !in fields[k];
    SplitJoin(fields, ';');
    JoinEnds(fields, ';');
    assert line != [] && !IsSpace(line[0]) && !IsSpace(line[|line| - 1]);
    StripNewline(line);
  }

  /**
   * A well-formed survey line, read from the file with its newline, yields the
   * record of its operator, the transformed point and its flags.
   */
  lemma SurveyLineRoundTrip(operatorId: string, x: int, y: int, g2: bool, g3: bool, g4: bool, transform: Transform)
    requires ';' !in operatorId
    requires operatorId == [] || !IsSpace(operatorId[0])
    requires StrDefined(x) && StrDefined(y)
    ensures ParseLine(SurveyLine(operatorId, x, y, g2, g3, g4) + "\n", transform) ==
            Parsed(InitRecord(operatorId, transform(x, y).0, transform(x, y).1, g2, g3, g4))
  {
    var fields := SurveyFields(operatorId, x, y, g2, g3, g4);
    var line := SurveyLine(operatorId, x, y, g2, g3, g4) + "\n";
    SurveyLineFields(operatorId, x, y, g2, g3, g4);
    assert Split(Strip(line), ';') == fields;
    SurveyFieldsCoordinates(operatorId, x, y, g2, g3, g4);
    OperatorOfFlags(operatorId, x, y, g2, g3, g4, transform(x, y));
    ParseLineAccepts(line, transform, x, y);
  }

  /** A flag is set only by the exact text `1`: `" 1"`, `"01"` or `"true"` all leave it unset. */
  lemma FlagIsExactlyOne(fields: seq<string>, coordinates: (real, real))
    requires |fields| >= 6
    ensures Operator(fields, coordinates).value.g2 <==> fields[3] == "1"
    ensures Operator(fields, coordinates).value.g3 <==> fields[4] == "1"
    ensures Operator(fields, coordinates).value.g4 <==> fields[5] == "1"
    ensures Operator(fields, coordinates).value.operatorId == fields[0]
    ensures Operator(fields, coordinates).value.latitude == coordinates.0
    ensures Operator(fields, coordinates).value.longitude == coordinates.1
  {
  }

  // ---------------------------------------------------------------------------
  // `skip_comments`, used when the processed file is read back.

  /** After `strip()` the line starts with `#`. */
  predicate IsComment(line: string) {
    StartsWith(Strip(line), "#")
  }

  /** `skip_comments`: the lines that are not comments, in order and unmodified. */
  function SkipComments(lines: seq<string>): seq<string> {
    if lines == [] then []
    else if IsComment(lines[0]) then SkipComments(lines[1..])
    else [lines[0]] + SkipComments(lines[1..])
  }

  /** A line is kept if and only if it is an input line that is not a comment. */
  lemma {:induction false} SkipCommentsMembership(lines: seq<string>, line: string)
    ensures line in SkipComments(lines) <==> line in lines && !IsComment(line)
  {
    if lines != [] {
      SkipCommentsMembership(lines[1..], line);
      assert line in lines <==> line == lines[0] || line in lines[1..];
    }
  }

  /** The filter works line by line: it distributes over concatenation. */
  lemma {:induction false} SkipCommentsAppend(a: seq<string>, b: seq<string>)
    ensures SkipComments(a + b) == SkipComments(a) + SkipComments(b)
  {
    if a == [] {
      assert a + b == b;
    } else {
      assert (a + b)[0] == a[0];
      assert (a + b)[1..] == a[1..] + b;
      SkipCommentsAppend(a[1..], b);
    }
  }

  /** Skipping comments twice is skipping them once. */
  lemma {:induction false} SkipCommentsIdempotent(lines: seq<string>)
    ensures SkipComments(SkipComments(lines)) == SkipComments(lines)
  {
    if lines != [] {
      SkipCommentsIdempotent(lines[1..]);
      if !IsComment(lines[0]) {
        SkipCommentsAppend([lines[0]], SkipComments(lines[1..]));
        assert [lines[0]][1..] == [];
      }
    }
  }

  /** Nothing is added: the result is never longer than the input, and as long only when no line is a comment. */
  lemma {:induction false} SkipCommentsLength(lines: seq<string>)
    ensures |SkipComments(lines)| <= |lines|
    ensures |SkipComments(lines)| == |lines| <==> forall line :: line in lines ==> !IsComment(line)
  {
    if lines != [] {
      var rest := lines[1..];
      SkipCommentsLength(rest);
      assert forall line :: line in lines <==> line == lines[0] || line in rest;
    }
  }
}
