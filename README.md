# interval-processor, modelled in Dafny

This project models the core of *interval-processor*, a small integer-range calculator. A request carries two lists of range strings such as `"10-100"` or `"-5--15"`: the *includes* and the *excludes*. The service handles a request in four steps:

1. It validates both lists against the range grammar, collecting every error.
2. It parses each string into a closed integer interval.
3. It merges each list into sorted, disjoint, non-touching intervals.
4. It subtracts the merged excludes from the merged includes and prints the result as `"{start}-{end}"` strings.

| file | module | models |
|---|---|---|
| `results.dfy` | `Results` | `Result`/`Option`. `AllOk` stands for a map that throws at the first failure. |
| `intervals.dfy` | `Intervals` | The `Interval` record, the integers a collection covers, and the merged normal form. Proves that the normal form is unique. |
| `text.dfy` | `Text` | The JavaScript built-ins the parser relies on: `trim`, `split('-')`, `join`, and decimal printing and reading of integers. |
| `validator.dfy` | `Validator` | `isValidInteger`; `isValidIntervalFormat` as a character-level recogniser proved equal to a reference reading of the grammar; and the error-collecting loop of `validateIntervalStrings`. |
| `parser.dfy` | `Parser` | `parseInterval` with its hyphen case table, `parseIntervals`, `formatInterval` and `formatIntervals`. |
| `processor.dfy` | `Processor` | `mergeIntervals` and `subtractIntervals` as methods with the original loops, each proved equal to a recursive specification function (`Merged`, `Subtracted`), plus `processIntervals`. |
| `service.dfy` | `Service` | `processIntervalRequest`: validation gating, then parse, process and format. |

Covered integers are the common vocabulary:

- `Covers(s, x)` says that some interval of `s` contains the integer `x`.
- `IsMerged(s)` says that `s` is sorted by start and that every later interval starts at least two past the end of every earlier one.

The source's exceptions become `Err` values that name the error and carry the text the source puts in its message. Lists are Dafny sequences, which are values, so the merge leaves its argument unchanged for the same reason the source does: it sorts a copy.

Facts about the code worth knowing:

- **Subtraction output.** Subtraction never emits touching neighbours when the includes are merged and the excludes are sorted and well formed: an exclude between two pieces covers at least one integer, so the pieces are apart by a gap (`Processor.SubtractedSpec`, third ensures).
- **Subtracting nothing.** `subtractIntervals(X, [])` returns `X` unchanged, which equals `merge(X)` exactly when `X` is already merged (`Processor.SubtractedEdgeCases`). Through `processIntervals` the includes are always merged first.
- **Merge coverage.** The merge preserves coverage for every input, including intervals with `start > end` (`Processor.MergedSpec`).
- **Validated but unparsable strings.** The validator accepts a space between the separator and the minus sign of a negative end, as in `"5- -10"`. The parser's case table then rejects that string as a format error (`Parser.ValidatedParse`, `Parser.SpacedNegativeEndExample`). So a validated request can still fail to parse, which the service reports as a parse failure.

## Model

| member | source | states |
|---|---|---|
| `Intervals.MergedUnique` | src/utils/interval-processor.ts:8-34 | Two normal-form collections of well-formed intervals that cover the same integers are equal, so the merger's output is a canonical form. |
| `Text.TrimEndSpec` | src/utils/interval-parser.ts:11 | Trimming the end keeps a prefix. What it drops is all whitespace, and the result does not end in whitespace. |
| `Text.TrimStartSpec` | src/utils/interval-parser.ts:11 | Trimming the start keeps a suffix. What it drops is all whitespace, and the result does not start with whitespace. |
| `Text.TrimEmpty` | src/utils/interval-parser.ts:11-15 | A string trims to the empty string exactly when it is all whitespace. |
| `Text.TrimSplit` | src/utils/interval-parser.ts:11 | Every string is whitespace, then its trimmed text, then whitespace. |
| `Text.Split` | src/utils/interval-parser.ts:17 | `split` gives at least one piece, no piece contains the separator, and rejoining the pieces gives the string back. |
| `Text.SplitJoin` | src/utils/interval-parser.ts:25 | Splitting a join of separator-free pieces gives the pieces back. |
| `Text.SplitAppend` | src/utils/interval-parser.ts:17 | The split of `a + "-" + b` is the split of `a` followed by the split of `b`. |
| `Text.IntToDecimal` | src/utils/interval-parser.ts:63 | The printed integer is an optional minus sign and one or more digits. It starts with `-` exactly when the integer is negative, and its digits start with `0` only for zero. |
| `Text.CanonicalDecimal` | src/utils/interval-parser.ts:63 | A signed digit string is what `${n}` prints for its own value exactly when it has no superfluous leading zero and is not `-0`, so the printed string of each integer is determined. |
| `Text.DecimalRoundTrip` | src/utils/interval-parser.ts:42-43 | Reading a printed integer back gives the same integer. |
| `Validator.FormatMeansSeparator` | src/utils/validator.ts:12-15 | `Validator.IsValidIntervalFormat`, the recogniser of the format regex, accepts a string exactly when some hyphen in it has a valid integer literal (`Validator.IsValidInteger`) on each side. Both directions are proved. |
| `Validator.RightAccepts` | src/utils/validator.ts:13 | From a phase of the second number, the rest of the string is accepted exactly when it completes that number. |
| `Validator.LeftAccepts` | src/utils/validator.ts:13 | From a phase of the first number, the rest is accepted exactly when some hyphen splits it into the rest of that number and a valid integer literal. |
| `Validator.AcceptedExamples` | src/utils/validator.ts:10-15 | `"10-20"` and `"-5-15"` are accepted. |
| `Validator.AcceptedSpacedExample` | src/utils/validator.ts:13 | `"5- -10"` is accepted. |
| `Validator.RejectedExamples` | tests/integration.test.ts:87-100 | `"invalid-format"`, `"10"` and `"10-"` are rejected. |
| `Validator.EntryErrors` | src/utils/validator.ts:28-36 | An invalid element gives exactly one error and a valid one gives none. An empty or non-string element gets `Invalid interval: …` without the format check; a string that fails the format check gets the format message. |
| `Validator.ValidateIntervalStrings` | src/utils/validator.ts:20-43 | The loop returns the errors of the elements in element order, or the array error for a non-array. `isValid` holds iff there are no errors, iff the input is an array whose every element passes. |
| `Validator.CollectErrorsAppend` | src/utils/validator.ts:28-37 | The errors of a concatenation are the errors of the first part followed by those of the second. |
| `Validator.ErrorCount` | src/utils/validator.ts:28-37 | There are as many errors as invalid elements: errors are collected, not short-circuited. |
| `Validator.NoErrorsIffAllValid` | src/utils/validator.ts:39-42 | The error list is empty exactly when every element passes. |
| `Parser.ParseInterval` | src/utils/interval-parser.ts:10-50 | A parsed interval has `start <= end`. The empty-string error is returned exactly for all-whitespace input. |
| `Parser.ParseIntervals` | src/utils/interval-parser.ts:55-57 | Succeeds iff every string parses. Then the result has one interval per string, in order. Otherwise it fails with the error of the first string that does not parse. |
| `Parser.FormatIntervals` | src/utils/interval-parser.ts:69-71 | One string per interval, in order, each the formatted interval. |
| `Parser.FragmentsOfFormat` | src/utils/interval-parser.ts:17-36 | `Parser.Fragments` is the hyphen case table: it picks the start and end texts out of the trimmed string by the shape of its `split('-')` pieces. For every sign combination of the bounds, it picks the two printed bounds back out of a formatted interval. |
| `Parser.FormatParseRoundTrip` | src/utils/interval-parser.ts:62-64 | `Parser.FormatInterval` prints `${start}-${end}`. Parsing a formatted interval gives the interval with its bounds in ascending order. |
| `Parser.FormatParseIdentity` | src/utils/interval-parser.ts:62-64 | Parsing a formatted interval with `start <= end` gives it back unchanged. |
| `Parser.FormatParseListRoundTrip` | src/utils/interval-parser.ts:69-71 | Parsing the formatted list of well-formed intervals gives the list back. |
| `Parser.FormatIsValid` | src/utils/interval-parser.ts:62-64 | Every formatted interval is non-empty and passes the validator's grammar. |
| `Parser.DecimalIsValidInteger` | src/utils/validator.ts:4-7 | `Validator.IsValidInteger` is an optional minus sign and digits after trimming. A printed integer is such a literal, and its value is that integer. |
| `Parser.PaddedValue` | src/utils/validator.ts:4-7 | A signed digit string with whitespace around it is a valid integer literal with the digits' value. |
| `Parser.ValidatedParse` | src/utils/interval-parser.ts:17-49 | On every string the validator accepts, the parser returns the two bounds in ascending order. The one exception is a space between the separator and a negative end's sign, which is rejected as a format error. |
| `Parser.ParseNonNegativeExample` | src/utils/interval-parser.ts:30-32 | `"10-20"` parses to `[10, 20]`. |
| `Parser.ParseNegativeStartExample` | src/utils/interval-parser.ts:20-25 | `"-5-15"` parses to `[-5, 15]`. |
| `Parser.ParseNegativeEndExample` | src/utils/interval-parser.ts:27-29 | `"10--5"` parses to `[-5, 10]`. |
| `Parser.ParseBothNegativeExample` | src/utils/interval-parser.ts:24-25 | `"-5--15"` parses to `[-15, -5]`. |
| `Parser.ParseReversedExample` | src/utils/interval-parser.ts:45-49 | `"20-10"` parses to `[10, 20]`. |
| `Parser.Message` | src/utils/interval-parser.ts:14-39 | The thrown messages: `Empty interval string`, and the format and non-integer messages, which end with the offending input exactly as given. |
| `Parser.MessageDeterminesError` | src/utils/interval-parser.ts:14-39 | Two parse errors have the same message exactly when they are the same error, so the message names the kind and the input. |
| `Parser.ParseErrorExamples` | src/utils/interval-parser.ts:13-23 | `"-5"` is a format error, and a blank string is the empty-string error. |
| `Parser.SpacedNegativeEndShape` | src/utils/validator.ts:13 | In `"5- -10"` the hyphen at index 1 is a separator with valid integers on both sides, and a space precedes the end's minus sign. |
| `Parser.SpacedNegativeEndExample` | src/utils/interval-parser.ts:27-35 | `"5- -10"`, which the validator accepts, is rejected by the parser as a format error. |
| `Processor.SortSpec` | src/utils/interval-processor.ts:14 | The sort returns a permutation of its input, sorted by start. |
| `Processor.SortOfSorted` | src/utils/interval-processor.ts:14 | Sorting an already sorted collection changes nothing. |
| `Processor.MergeIntervals` | src/utils/interval-processor.ts:8-34 | The loop returns `Merged(intervals)`. It returns an input of at most one interval unchanged. The output is in normal form, covers exactly the integers the input covers, has no more intervals than the input, and is well formed when the input is. |
| `Processor.SweepMerged` | src/utils/interval-processor.ts:18-32 | The sweep over intervals sorted by start yields a normal-form collection. |
| `Processor.SweepCovers` | src/utils/interval-processor.ts:18-33 | The sweep covers exactly what the current interval and the remaining ones cover. |
| `Processor.MergedSpec` | src/utils/interval-processor.ts:8-34 | For every input, the merge is in normal form, preserves coverage, does not grow, and keeps intervals well formed. |
| `Processor.MergedOfMerged` | src/utils/interval-processor.ts:18-32 | A collection already in normal form is its own merge. |
| `Processor.MergeIdempotent` | src/utils/interval-processor.ts:8-34 | `merge(merge(X)) == merge(X)`. |
| `Processor.MergedCanonical` | src/utils/interval-processor.ts:8-34 | For well-formed input, the merge is the only normal-form collection of well-formed intervals that covers the same integers. |
| `Processor.MergeOrderIndependent` | src/utils/interval-processor.ts:14 | For well-formed input, the merge depends only on which intervals are given, not on their order. |
| `Processor.SubtractIntervals` | src/utils/interval-processor.ts:41-96 | The two-cursor loop returns `Subtracted(includes, excludes)`. With both sides sorted by start, the result covers exactly what an include covers and no exclude covers. The result is well formed when the includes are, and in normal form when the includes are and the excludes are sorted and well formed. |
| `Processor.SkipSpec` | src/utils/interval-processor.ts:58-60 | The skip loop passes only over excludes that end before the current start, and stops at one that does not (or at the end). |
| `Processor.CutCovers` | src/utils/interval-processor.ts:62-92 | For one include, the pieces cover the integers from the current start to the include's end that no remaining sorted exclude covers. |
| `Processor.CutMerged` | src/utils/interval-processor.ts:62-92 | For one include and well-formed excludes, the pieces are in normal form. |
| `Processor.CutWithin` | src/utils/interval-processor.ts:67-91 | Every piece emitted for one include is well formed and lies between the current start and the include's end. |
| `Processor.SubtractedSpec` | src/utils/interval-processor.ts:41-96 | Covers exactly includes minus excludes when both are sorted by start. Well formed when the includes are. In normal form when the includes are and the excludes are sorted and well formed. |
| `Processor.SubtractedEdgeCases` | src/utils/interval-processor.ts:42-48 | No includes give `[]`. No excludes give the includes unchanged, which is their merge exactly when they are already merged. |
| `Processor.SubtractedInsideIncludes` | src/utils/interval-processor.ts:53-92 | Every output interval lies inside one include. |
| `Processor.SubtractedAvoidsExcludes` | src/utils/interval-processor.ts:53-92 | With both sides sorted, no output interval shares an integer with any exclude. |
| `Processor.ProcessIntervals` | src/utils/interval-processor.ts:103-107 | Returns `Subtracted(Merged(I), Merged(E))`, which covers exactly what `I` covers and `E` does not. It is well formed when `I` is, and in normal form when `E` is well formed. |
| `Processor.ProcessedSpec` | src/utils/interval-processor.ts:103-107 | The same coverage, well-formedness and normal-form facts, for the composition of the specification functions. |
| `Processor.ProcessedCanonical` | src/utils/interval-processor.ts:103-107 | For well-formed input, the result is the unique normal-form collection of well-formed intervals covering includes minus excludes. |
| `Processor.ProcessedOrderIndependent` | src/utils/interval-processor.ts:103-107 | For well-formed input, reordering either list does not change the result. |
| `Processor.ProcessedExamples` | tests/integration.test.ts:35-72 | `[10,100]−[20,30]` gives `[10,19],[31,100]`. `[50,5000],[10,100]` with no excludes gives `[10,5000]`. `[200,300],[50,150]−[95,205]` gives `[50,94],[206,300]`. |
| `Processor.ProcessedLargerExample` | tests/integration.test.ts:74-85 | The three-include, three-exclude example gives `[10,94],[206,300],[400,409],[421,500]`. |
| `Service.PassingInputIsStrings` | src/utils/validator.ts:28-42 | An input that passes validation is an array of non-empty strings. |
| `Service.ProcessIntervalRequest` | src/services/interval-service.ts:13-39 | The pipeline returns `Outcome(req)`, and every string it returns passes the validator. |
| `Service.ValidationGate` | src/services/interval-service.ts:20-26 | Invalid includes are reported, with all their errors, exactly when they fail validation. Invalid excludes are reported exactly when the includes pass and the excludes fail. The message is then `Invalid includes: ` or `Invalid excludes: ` followed by the errors joined with `, `. |
| `Service.MissingIsEmpty` | src/services/interval-service.ts:17-18 | An absent field behaves as an empty list. |
| `Service.SuccessfulOutcome` | src/services/interval-service.ts:29-37 | A validated, parsed request returns the formatted processed intervals. Those strings parse back to the processed intervals, which are in normal form and cover exactly includes minus excludes. |
| `Service.OutcomeIsCanonical` | src/services/interval-service.ts:29-37 | Any successful answer parses back to a normal-form list of well-formed intervals. |
| `Service.ParseFailureOutcome` | src/services/interval-service.ts:29-30 | A validated request whose includes fail to parse is rejected with that parse error, and its message is the parser's: `Empty interval string`, `Invalid interval format: ` plus the input, or `Non-integer values in interval: ` plus the input. |
| `Service.OutputIsValid` | src/services/interval-service.ts:36 | Every formatted result string passes the validator. |
| `Service.FormattedRequest` | src/services/interval-service.ts:13-39 | A request of formatted well-formed intervals answers with the formatted processing of those intervals. |
| `Service.FormattedPasses` | src/services/interval-service.ts:17-18 | A list of formatted intervals passes validation, and its strings are the formatted intervals. |
| `Service.HoleScenario` | tests/integration.test.ts:35-46 | `["10-100"]` minus `["20-30"]` answers `["10-19", "31-100"]`. |
| `Service.MergeScenario` | tests/integration.test.ts:48-59 | `["50-5000", "10-100"]` with no excludes answers `["10-5000"]`. |
| `Service.StraddleScenario` | tests/integration.test.ts:61-72 | `["200-300", "50-150"]` minus `["95-205"]` answers `["50-94", "206-300"]`. |
| `Service.LargerScenario` | tests/integration.test.ts:74-85 | Three includes minus three overlapping excludes answer `["10-94", "206-300", "400-409", "421-500"]`. |
| `Service.InvalidFormatScenario` | tests/integration.test.ts:87-100 | `["invalid-format"]` is rejected as invalid includes, with the element's format message, before any parsing. The thrown message is `Invalid includes: ` followed by that format message. |
| `Service.MessageNamesList` | src/services/interval-service.ts:20-30 | The message `Service.ErrorMessage` builds starts with `Invalid includes: ` exactly for rejected includes, and with `Invalid excludes: ` exactly for rejected excludes. No parse-failure message starts with either. |

## Left out

- The HTTP layer, server set-up, routes, API documentation and configuration are I/O plumbing and not part of this model. The same goes for the `async`/`Promise` wrapper of the service.
- `executionTime` and `Date.now()` are a wall-clock measurement and are not modelled. The model's answer is the `result` list or the error.
- JavaScript `Number` and `parseInt` semantics are not modelled: `Number("") === 0`, a leading `+` (the source parses `"5-+3"` to `[3, 5]`), a decimal point (as in `"5-1.0"`), hexadecimal and exponent literals, `NaN`, `-0`, the 2^53 precision limit, and literals beyond `Number.MAX_VALUE`, which become `Infinity` and fail `isValidInteger` in the source. `isValidInteger` is a decimal grammar with surrounding whitespace, and bounds are unbounded integers. `Parser.ParseInterval` therefore rejects with `NonInteger` the fragments that only these `Number` rules would accept (for example an empty end in `"5-"`). Through the service such strings never reach the parser, because the validator rejects them first (`Parser.ValidatedParse`).
- Printing integers with exponent notation (at 10^21 and beyond) is not modelled; `Text.IntToDecimal` always prints plain digits.
- Whitespace is the ASCII set: space, tab, line feed, vertical tab, form feed and carriage return. The wider Unicode set of `trim` and `\s` is not modelled.
- Processor.SortByStart: the engine's sort algorithm is not modelled. The sort is a stable insertion-sort function specified as a sorted permutation (`Processor.SortSpec`), and its stability is not stated as a lemma.
- Validator.Entry: what a template literal prints for a non-string JSON value is a parameter of the element (`NonString(shown)`), not computed.
- The "does not modify its argument" property of the merge holds because sequences are values. It is not a separate contract, and aliasing is not modelled.
- Processor.SubtractIntervals: the coverage contract is stated only for inputs sorted by start. The source promises it only for such inputs, and `processIntervals` always passes merged lists.
