/**
 * The request pipeline: validate both string lists, then parse them, process
 * the intervals, and format the result. The wall-clock measurement the
 * response carries is not part of this model.
 */
module Service {
  import opened Results
  import opened Text
  import opened Intervals
  import opened Validator
  import opened Parser
  import opened Processor

  /** A request field: `Missing` is an absent field or any other value that
      `field || []` replaces by the empty array. */
  datatype Field = Missing | Present(value: Input)

  datatype Request = Request(includes: Field, excludes: Field)

  /** `field || []`. */
  function OrEmpty(f: Field): Input
  {
    match f
    case Missing => Array([])
    case Present(v) => v
  }

  /** Why a request is rejected, in the order of the checks. */
  datatype ServiceError =
    | InvalidIncludes(errors: seq<string>)
    | InvalidExcludes(errors: seq<string>)
    | ParseFailed(error: ParseError)

  /** The message of the error the service throws. */
  function ErrorMessage(e: ServiceError): string
  {
    match e
    case InvalidIncludes(errs) => "Invalid includes: " + Join(errs, ", ")
    case InvalidExcludes(errs) => "Invalid excludes: " + Join(errs, ", ")
    case ParseFailed(pe) => Message(pe)
  }

  /** `m` begins with `p`. */
  predicate StartsWith(m: string, p: string)
  {
    |p| <= |m| && m[..|p|] == p
  }

  /** The message names the list that was rejected, and no parse failure reads
      like a rejected list. */
  lemma MessageNamesList(e: ServiceError)
    ensures StartsWith(ErrorMessage(e), "Invalid includes: ") <==> e.InvalidIncludes?
    ensures StartsWith(ErrorMessage(e), "Invalid excludes: ") <==> e.InvalidExcludes?
  {
    var m := ErrorMessage(e);
    match e
    case InvalidIncludes(errs) =>
      assert m[8] == 'i';
    case InvalidExcludes(errs) =>
      assert m[8] == 'e';
    case ParseFailed(pe) =>
      match pe
      case EmptyInterval =>
        assert m[0] == 'E';
      case InvalidFormat(s) =>
        assert m[10] == 't';
      case NonInteger(s) =>
        var p := "Non-integer values in interval: ";
        assert m == p + s;
        assert p[0] == 'N';
        assert m[0] == p[0];
  }

  /** Every element of the input is a string, as after a passing validation. */
  predicate AllStrings(input: Input)
  {
    input.Array? && forall k :: 0 <= k < |input.entries| ==> input.entries[k].Str?
  }

  /** The strings of an array of strings, in order. */
  function Texts(es: seq<Entry>): (ts: seq<string>)
    requires forall k :: 0 <= k < |es| ==> es[k].Str?
    ensures |ts| == |es| && forall k :: 0 <= k < |es| ==> ts[k] == es[k].text
  {
    if es == [] then [] else [es[0].text] + Texts(es[1..])
  }

  /** An input that passes the validator is an array of non-empty strings. */
  lemma PassingInputIsStrings(input: Input)
    ensures ValidationErrors(input) == [] ==> AllStrings(input)
    ensures ValidationErrors(input) == [] ==> forall k :: 0 <= k < |input.entries| ==> input.entries[k].text != []
  {
    if input.Array? {
      NoErrorsIffAllValid(input.entries);
    }
  }

  /** What `processIntervalRequest` answers: the formatted result, or the error it
      throws. Includes are validated before excludes, and both before any parsing. */
  function Outcome(req: Request): Result<seq<string>, ServiceError>
  {
    var inc, exc := OrEmpty(req.includes), OrEmpty(req.excludes);
    var incErrors, excErrors := ValidationErrors(inc), ValidationErrors(exc);
    if incErrors != [] then Err(InvalidIncludes(incErrors))
    else if excErrors != [] then Err(InvalidExcludes(excErrors))
    else
      PassingInputIsStrings(inc);
      PassingInputIsStrings(exc);
      match ParseIntervals(Texts(inc.entries))
      case Err(e) => Err(ParseFailed(e))
      case Ok(includes) =>
        match ParseIntervals(Texts(exc.entries))
        case Err(e) => Err(ParseFailed(e))
        case Ok(excludes) => Ok(FormatIntervals(Processed(includes, excludes)))
  }

  /** The pipeline step by step; it computes `Outcome`, whose properties are the
      lemmas below. */
  method ProcessIntervalRequest(req: Request) returns (r: Result<seq<string>, ServiceError>)
    ensures r == Outcome(req)
    ensures r.Ok? ==> forall k :: 0 <= k < |r.value| ==> IsValidIntervalFormat(r.value[k])
  {
    var inc, exc := OrEmpty(req.includes), OrEmpty(req.excludes);
    var includesValidation := ValidateIntervalStrings(inc);
    var excludesValidation := ValidateIntervalStrings(exc);
    if !includesValidation.isValid {
      return Err(InvalidIncludes(includesValidation.errors));
    }
    if !excludesValidation.isValid {
      return Err(InvalidExcludes(excludesValidation.errors));
    }
    PassingInputIsStrings(inc);
    PassingInputIsStrings(exc);
    var parsedIncludes := ParseIntervals(Texts(inc.entries));
    if parsedIncludes.Err? {
      return Err(ParseFailed(parsedIncludes.error));
    }
    var parsedExcludes := ParseIntervals(Texts(exc.entries));
    if parsedExcludes.Err? {
      return Err(ParseFailed(parsedExcludes.error));
    }
    var result := ProcessIntervals(parsedIncludes.value, parsedExcludes.value);
    r := Ok(FormatIntervals(result));
    OutputIsValid(result);
  }

  /** Every formatted interval passes the validator again. */
  lemma OutputIsValid(ivs: seq<Interval>)
    ensures forall k :: 0 <= k < |ivs| ==> IsValidIntervalFormat(FormatIntervals(ivs)[k])
  {
    forall k | 0 <= k < |ivs|
      ensures IsValidIntervalFormat(FormatIntervals(ivs)[k])
    {
      FormatIsValid(ivs[k]);
    }
  }

  /** Validation gates the pipeline: invalid includes are reported with all their
      errors; invalid excludes are reported only when the includes pass. */
  lemma ValidationGate(req: Request)
    ensures ValidationErrors(OrEmpty(req.includes)) != [] <==>
              Outcome(req) == Err(InvalidIncludes(ValidationErrors(OrEmpty(req.includes))))
    ensures ValidationErrors(OrEmpty(req.includes)) == [] && ValidationErrors(OrEmpty(req.excludes)) != [] <==>
              Outcome(req) == Err(InvalidExcludes(ValidationErrors(OrEmpty(req.excludes))))
    ensures ValidationErrors(OrEmpty(req.includes)) != [] ==>
              ErrorMessage(Outcome(req).error) == "Invalid includes: " + Join(ValidationErrors(OrEmpty(req.includes)), ", ")
    ensures ValidationErrors(OrEmpty(req.includes)) == [] && ValidationErrors(OrEmpty(req.excludes)) != [] ==>
              ErrorMessage(Outcome(req).error) == "Invalid excludes: " + Join(ValidationErrors(OrEmpty(req.excludes)), ", ")
  {
  }

  /** An absent field is treated as an empty list. */
  lemma MissingIsEmpty(req: Request)
    ensures Outcome(Request(Missing, req.excludes)) == Outcome(Request(Present(Array([])), req.excludes))
    ensures Outcome(Request(req.includes, Missing)) == Outcome(Request(req.includes, Present(Array([]))))
  {
  }

  /**
   * A request that passes validation and parsing yields the formatted result of
   * processing the parsed intervals. The strings returned parse back to that
   * result, which is in normal form and covers exactly the integers some include
   * covers and no exclude covers.
   */
  lemma SuccessfulOutcome(req: Request, includes: seq<Interval>, excludes: seq<Interval>)
    requires ValidationErrors(OrEmpty(req.includes)) == [] && ValidationErrors(OrEmpty(req.excludes)) == []
    // implied by the first requires (`PassingInputIsStrings`); stated so that `Texts` may be applied
    requires AllStrings(OrEmpty(req.includes)) && AllStrings(OrEmpty(req.excludes))
    requires ParseIntervals(Texts(OrEmpty(req.includes).entries)) == Ok(includes)
    requires ParseIntervals(Texts(OrEmpty(req.excludes).entries)) == Ok(excludes)
    ensures Outcome(req) == Ok(FormatIntervals(Processed(includes, excludes)))
    ensures ParseIntervals(Outcome(req).value) == Ok(Processed(includes, excludes))
    ensures IsMerged(Processed(includes, excludes))
    ensures forall x :: Covers(Processed(includes, excludes), x) <==> Covers(includes, x) && !Covers(excludes, x)
  {
    ProcessedSpec(includes, excludes);
    FormatParseListRoundTrip(Processed(includes, excludes));
  }

  /** Any request that is not rejected answers in normal form: its strings parse
      back to separated, sorted, well-formed intervals. */
  lemma OutcomeIsCanonical(req: Request)
    ensures Outcome(req).Ok? ==>
              exists m :: ParseIntervals(Outcome(req).value) == Ok(m) && IsMerged(m) && AllWellFormed(m)
  {
    var inc, exc := OrEmpty(req.includes), OrEmpty(req.excludes);
    if Outcome(req).Ok? {
      PassingInputIsStrings(inc);
      PassingInputIsStrings(exc);
      var includes := ParseIntervals(Texts(inc.entries)).value;
      var excludes := ParseIntervals(Texts(exc.entries)).value;
      SuccessfulOutcome(req, includes, excludes);
      ProcessedSpec(includes, excludes);
    }
  }

  /** The first parse failure of the includes rejects a validated request. */
  lemma ParseFailureOutcome(req: Request, e: ParseError)
    requires ValidationErrors(OrEmpty(req.includes)) == [] && ValidationErrors(OrEmpty(req.excludes)) == []
    requires AllStrings(OrEmpty(req.includes)) && AllStrings(OrEmpty(req.excludes))
    requires ParseIntervals(Texts(OrEmpty(req.includes).entries)) == Err(e)
    ensures Outcome(req) == Err(ParseFailed(e))
    ensures e == EmptyInterval ==> ErrorMessage(Outcome(req).error) == "Empty interval string"
    ensures e.InvalidFormat? ==> ErrorMessage(Outcome(req).error) == "Invalid interval format: " + e.input
    ensures e.NonInteger? ==> ErrorMessage(Outcome(req).error) == "Non-integer values in interval: " + e.input
  {
  }

  // ---------------------------------------------------------------- scenarios

  /** An array of the given strings. */
  function Strings(ts: seq<string>): (es: seq<Entry>)
    ensures |es| == |ts| && forall k :: 0 <= k < |ts| ==> es[k] == Str(ts[k])
  {
    if ts == [] then [] else [Str(ts[0])] + Strings(ts[1..])
  }

  /** A request whose lists were printed by the formatter from well-formed
      intervals answers with the formatted result of processing those intervals. */
  lemma FormattedRequest(includes: seq<Interval>, excludes: seq<Interval>)
    requires AllWellFormed(includes) && AllWellFormed(excludes)
    ensures Outcome(Request(Present(Array(Strings(FormatIntervals(includes)))),
                            Present(Array(Strings(FormatIntervals(excludes))))))
            == Ok(FormatIntervals(Processed(includes, excludes)))
  {
    FormattedPasses(includes);
    FormattedPasses(excludes);
    FormatParseListRoundTrip(includes);
    FormatParseListRoundTrip(excludes);
  }

  lemma FormattedPasses(ivs: seq<Interval>)
    ensures ValidationErrors(Array(Strings(FormatIntervals(ivs)))) == []
    ensures Texts(Strings(FormatIntervals(ivs))) == FormatIntervals(ivs)
  {
    var es := Strings(FormatIntervals(ivs));
    forall k | 0 <= k < |es|
      ensures ValidEntry(es[k])
    {
      FormatIsValid(ivs[k]);
    }
    NoErrorsIffAllValid(es);
  }

  /** Scenario: a hole in the middle of one include. */
  lemma HoleScenario()
    ensures Outcome(Request(Present(Array([Str("10-100")])), Present(Array([Str("20-30")]))))
            == Ok(["10-19", "31-100"])
  {
    var i, e := [Interval(10, 100)], [Interval(20, 30)];
    HoleScenarioStrings();
    assert Strings(["10-100"]) == [Str("10-100")];
    assert Strings(["20-30"]) == [Str("20-30")];
    FormattedRequest(i, e);
    ProcessedExamples();
  }

  lemma HoleScenarioStrings()
    ensures FormatIntervals([Interval(10, 100)]) == ["10-100"]
    ensures FormatIntervals([Interval(20, 30)]) == ["20-30"]
    ensures FormatIntervals([Interval(10, 19), Interval(31, 100)]) == ["10-19", "31-100"]
  {
    assert IntToDecimal(10) == "10" && IntToDecimal(100) == "100";
    assert IntToDecimal(20) == "20" && IntToDecimal(30) == "30";
    assert IntToDecimal(19) == "19" && IntToDecimal(31) == "31";
    assert FormatInterval(Interval(10, 100)) == "10-100";
    assert FormatInterval(Interval(20, 30)) == "20-30";
    assert FormatInterval(Interval(10, 19)) == "10-19";
    assert FormatInterval(Interval(31, 100)) == "31-100";
  }

  /** Scenario: two overlapping includes and no excludes merge into one range. */
  lemma MergeScenario()
    ensures Outcome(Request(Present(Array([Str("50-5000"), Str("10-100")])), Present(Array([]))))
            == Ok(["10-5000"])
  {
    var i: seq<Interval> := [Interval(50, 5000), Interval(10, 100)];
    MergeScenarioStrings();
    assert Strings(["50-5000", "10-100"]) == [Str("50-5000"), Str("10-100")];
    assert Strings(FormatIntervals([])) == [];
    FormattedRequest(i, []);
    ProcessedExamples();
  }

  lemma MergeScenarioStrings()
    ensures FormatIntervals([Interval(50, 5000), Interval(10, 100)]) == ["50-5000", "10-100"]
    ensures FormatIntervals([Interval(10, 5000)]) == ["10-5000"]
  {
    assert IntToDecimal(50) == "50" && IntToDecimal(5000) == "5000";
    assert IntToDecimal(10) == "10" && IntToDecimal(100) == "100";
    assert FormatInterval(Interval(50, 5000)) == "50-5000";
    assert FormatInterval(Interval(10, 100)) == "10-100";
    assert FormatInterval(Interval(10, 5000)) == "10-5000";
  }

  /** Scenario: one exclude straddles the gap between two includes. */
  lemma StraddleScenario()
    ensures Outcome(Request(Present(Array([Str("200-300"), Str("50-150")])), Present(Array([Str("95-205")]))))
            == Ok(["50-94", "206-300"])
  {
    var i, e := [Interval(200, 300), Interval(50, 150)], [Interval(95, 205)];
    StraddleScenarioStrings();
    StraddleScenarioResult();
    assert Strings(["200-300", "50-150"]) == [Str("200-300"), Str("50-150")];
    assert Strings(["95-205"]) == [Str("95-205")];
    FormattedRequest(i, e);
    ProcessedExamples();
  }

  lemma StraddleScenarioStrings()
    ensures FormatIntervals([Interval(200, 300), Interval(50, 150)]) == ["200-300", "50-150"]
    ensures FormatIntervals([Interval(95, 205)]) == ["95-205"]
  {
    assert IntToDecimal(200) == "200" && IntToDecimal(300) == "300";
    assert IntToDecimal(50) == "50" && IntToDecimal(150) == "150";
    assert IntToDecimal(95) == "95" && IntToDecimal(205) == "205";
    assert FormatInterval(Interval(200, 300)) == "200-300";
    assert FormatInterval(Interval(50, 150)) == "50-150";
    assert FormatInterval(Interval(95, 205)) == "95-205";
  }

  lemma StraddleScenarioResult()
    ensures FormatIntervals([Interval(50, 94), Interval(206, 300)]) == ["50-94", "206-300"]
  {
    assert IntToDecimal(50) == "50" && IntToDecimal(94) == "94";
    assert IntToDecimal(206) == "206" && IntToDecimal(300) == "300";
    assert FormatInterval(Interval(50, 94)) == "50-94";
    assert FormatInterval(Interval(206, 300)) == "206-300";
  }

  /** Scenario: three includes and three overlapping excludes. */
  lemma LargerScenario()
    ensures Outcome(Request(Present(Array([Str("200-300"), Str("10-100"), Str("400-500")])),
                            Present(Array([Str("410-420"), Str("95-205"), Str("100-150")]))))
            == Ok(["10-94", "206-300", "400-409", "421-500"])
  {
    var i := [Interval(200, 300), Interval(10, 100), Interval(400, 500)];
    var e := [Interval(410, 420), Interval(95, 205), Interval(100, 150)];
    LargerScenarioIncludes();
    LargerScenarioExcludes();
    LargerScenarioResult();
    assert Strings(["200-300", "10-100", "400-500"]) == [Str("200-300"), Str("10-100"), Str("400-500")];
    assert Strings(["410-420", "95-205", "100-150"]) == [Str("410-420"), Str("95-205"), Str("100-150")];
    FormattedRequest(i, e);
    ProcessedLargerExample();
  }

  lemma LargerScenarioIncludes()
    ensures FormatIntervals([Interval(200, 300), Interval(10, 100), Interval(400, 500)])
            == ["200-300", "10-100", "400-500"]
  {
    assert IntToDecimal(200) == "200" && IntToDecimal(300) == "300";
    assert IntToDecimal(10) == "10" && IntToDecimal(100) == "100";
    assert IntToDecimal(400) == "400" && IntToDecimal(500) == "500";
    assert FormatInterval(Interval(200, 300)) == "200-300";
    assert FormatInterval(Interval(10, 100)) == "10-100";
    assert FormatInterval(Interval(400, 500)) == "400-500";
  }

  lemma LargerScenarioExcludes()
    ensures FormatIntervals([Interval(410, 420), Interval(95, 205), Interval(100, 150)])
            == ["410-420", "95-205", "100-150"]
  {
    assert IntToDecimal(410) == "410" && IntToDecimal(420) == "420";
    assert IntToDecimal(95) == "95" && IntToDecimal(205) == "205";
    assert IntToDecimal(100) == "100" && IntToDecimal(150) == "150";
    assert FormatInterval(Interval(410, 420)) == "410-420";
    assert FormatInterval(Interval(95, 205)) == "95-205";
    assert FormatInterval(Interval(100, 150)) == "100-150";
  }

  lemma LargerScenarioResult()
    ensures FormatIntervals([Interval(10, 94), Interval(206, 300), Interval(400, 409), Interval(421, 500)])
            == ["10-94", "206-300", "400-409", "421-500"]
  {
    assert IntToDecimal(10) == "10" && IntToDecimal(94) == "94";
    assert IntToDecimal(206) == "206" && IntToDecimal(300) == "300";
    assert IntToDecimal(400) == "400" && IntToDecimal(409) == "409";
    assert IntToDecimal(421) == "421" && IntToDecimal(500) == "500";
    assert FormatInterval(Interval(10, 94)) == "10-94";
    assert FormatInterval(Interval(206, 300)) == "206-300";
    assert FormatInterval(Interval(400, 409)) == "400-409";
    assert FormatInterval(Interval(421, 500)) == "421-500";
  }

  /** Scenario: an include with an invalid string is rejected before parsing. */
  lemma InvalidFormatScenario()
    ensures Outcome(Request(Present(Array([Str("invalid-format")])), Missing))
            == Err(InvalidIncludes(["Invalid input interval format: " + "invalid-format" + ". Expected format: 'start-end'"]))
    ensures ErrorMessage(Outcome(Request(Present(Array([Str("invalid-format")])), Missing)).error)
            == "Invalid includes: " + "Invalid input interval format: " + "invalid-format" + ". Expected format: 'start-end'"
  {
    RejectedExamples();
    var es := [Str("invalid-format")];
    assert es[..0] == [];
    assert CollectErrors(es) == EntryErrors(es[0]);
  }
}
