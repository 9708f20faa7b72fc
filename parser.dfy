/**
 * The range-expression parser and formatter. The parser trims the text,
 * splits it on every hyphen, and resolves which hyphen separates the bounds
 * with a fixed case table; the bounds are then put in ascending order.
 */
module Parser {
  import opened Results
  import opened Text
  import opened Intervals
  import opened Validator

  datatype ParseError =
    | EmptyInterval                 // nothing but whitespace
    | InvalidFormat(input: string)  // no case of the table applies
    | NonInteger(input: string)     // a chosen fragment is not an integer literal

  /** The message of the error the source throws; the last two end with the
      offending input as the caller gave it. */
  function Message(e: ParseError): (m: string)
    ensures !e.EmptyInterval? ==> |e.input| < |m| && m[|m| - |e.input|..] == e.input
  {
    match e
    case EmptyInterval => "Empty interval string"
    case InvalidFormat(s) => "Invalid interval format: " + s
    case NonInteger(s) => "Non-integer values in interval: " + s
  }

  /** The message tells the error apart: it names the kind and carries the input. */
  lemma MessageDeterminesError(a: ParseError, b: ParseError)
    ensures Message(a) == Message(b) <==> a == b
  {
    if Message(a) == Message(b) {
      var m := Message(a);
      assert m[0] == Message(b)[0];
      if a.InvalidFormat? && b.InvalidFormat? {
        assert |a.input| == |b.input|;
      } else if a.NonInteger? && b.NonInteger? {
        assert |a.input| == |b.input|;
      }
    }
  }

  /** `parseInt(s, 10)` on a string that `isValidInteger` accepts. */
  function IntegerValue(s: string): int
    requires IsValidInteger(s)
  {
    SignedValue(Trim(s))
  }

  /**
   * The hyphen case table over the pieces of the trimmed text: a leading hyphen
   * makes the start negative and the rest, rejoined, is the end; otherwise
   * `N--M` has a negative end and `N-M` has none; every other shape fails.
   */
  function Fragments(trimmed: string): Option<(string, string)>
    requires trimmed != []
  {
    var parts := Split(trimmed, '-');
    if trimmed[0] == '-' then
      if |parts| < 3 then None else Some(("-" + parts[1], Join(parts[2..], "-")))
    else if |parts| == 3 && parts[1] == [] then Some((parts[0], "-" + parts[2]))
    else if |parts| == 2 then Some((parts[0], parts[1]))
    else None
  }

  /** `parseInterval`. */
  function ParseInterval(s: string): (r: Result<Interval, ParseError>)
    ensures r.Ok? ==> WellFormed(r.value)
    ensures r == Err(EmptyInterval) <==> AllWhitespace(s)
  {
    TrimEmpty(s);
    var trimmed := Trim(s);
    if trimmed == [] then Err(EmptyInterval)
    else match Fragments(trimmed)
      case None => Err(InvalidFormat(s))
      case Some((a, b)) =>
        if !IsValidInteger(a) || !IsValidInteger(b) then Err(NonInteger(s))
        else Ok(Normalize(Interval(IntegerValue(a), IntegerValue(b))))
  }

  /** `parseIntervals`: each string in order, failing with the first failure. */
  function ParseIntervals(ss: seq<string>): (r: Result<seq<Interval>, ParseError>)
    ensures r.Ok? <==> forall k :: 0 <= k < |ss| ==> ParseInterval(ss[k]).Ok?
    ensures r.Ok? ==>
              |r.value| == |ss| && forall k :: 0 <= k < |ss| ==> ParseInterval(ss[k]) == Ok(r.value[k])
    ensures r.Err? ==> exists k :: FirstFailure(ss, k) && ParseInterval(ss[k]) == Err(r.error)
  {
    var rs := ParseEach(ss);
    var r := AllOk(rs);
    assert r.Err? ==> exists k :: FirstFailure(ss, k) && ParseInterval(ss[k]) == Err(r.error) by {
      if r.Err? {
        var k :| FirstErr(rs, k) && rs[k] == Err(r.error);
        assert FirstFailure(ss, k);
      }
    }
    r
  }

  /** The result of parsing each string, in order. */
  function ParseEach(ss: seq<string>): (rs: seq<Result<Interval, ParseError>>)
    ensures |rs| == |ss| && forall k :: 0 <= k < |ss| ==> rs[k] == ParseInterval(ss[k])
  {
    if ss == [] then [] else [ParseInterval(ss[0])] + ParseEach(ss[1..])
  }

  /** `ss[k]` is the first string that does not parse. */
  predicate FirstFailure(ss: seq<string>, k: int)
  {
    0 <= k < |ss| && ParseInterval(ss[k]).Err? &&
    forall j :: 0 <= j < k ==> ParseInterval(ss[j]).Ok?
  }

  /** `formatInterval`: `"{start}-{end}"`. */
  function FormatInterval(iv: Interval): string
  {
    IntToDecimal(iv.start) + "-" + IntToDecimal(iv.end)
  }

  /** `formatIntervals`: each interval in order. */
  function FormatIntervals(ivs: seq<Interval>): (r: seq<string>)
    ensures |r| == |ivs|
    ensures forall k :: 0 <= k < |ivs| ==> r[k] == FormatInterval(ivs[k])
  {
    if ivs == [] then [] else [FormatInterval(ivs[0])] + FormatIntervals(ivs[1..])
  }

  // ------------------------------------------------------------ round trip

  /** How a printed integer splits on hyphens: a negative one has an empty
      piece before its sign. */
  lemma SplitDecimal(n: int)
    ensures Split(IntToDecimal(n), '-') ==
              if n < 0 then [[], IntToDecimal(n)[1..]] else [IntToDecimal(n)]
  {
    var d := IntToDecimal(n);
    DecimalHasNoWhitespaceOrHyphen(n);
    if n < 0 {
      assert d == [] + ['-'] + d[1..];
      SplitAppend([], d[1..], '-');
      SplitNoSeparator(d[1..], '-');
    } else {
      SplitNoSeparator(d, '-');
    }
  }

  /** A printed integer is a valid integer literal with its own value. */
  lemma DecimalIsValidInteger(n: int)
    ensures IsValidInteger(IntToDecimal(n)) && IntegerValue(IntToDecimal(n)) == n
  {
    DecimalHasNoWhitespaceOrHyphen(n);
    TrimNoWhitespace(IntToDecimal(n));
    DecimalRoundTrip(n);
  }

  /** The case table picks the two printed bounds back out of a formatted interval. */
  lemma FragmentsOfFormat(iv: Interval)
    ensures FormatInterval(iv) != []
    ensures Fragments(FormatInterval(iv)) == Some((IntToDecimal(iv.start), IntToDecimal(iv.end)))
  {
    var a, b := IntToDecimal(iv.start), IntToDecimal(iv.end);
    var s := FormatInterval(iv);
    assert s == a + ['-'] + b;
    SplitAppend(a, b, '-');
    SplitDecimal(iv.start);
    SplitDecimal(iv.end);
    assert s[0] == a[0];
    var parts := Split(s, '-');
    if iv.start < 0 {
      assert a == "-" + a[1..];
      if iv.end < 0 {
        assert parts[2..] == [[], b[1..]];
        assert Join(parts[2..], "-") == [] + "-" + b[1..];
        assert b == "-" + b[1..];
      } else {
        assert parts[2..] == [b];
      }
    } else if iv.end < 0 {
      assert b == "-" + b[1..];
    }
  }

  /** Parsing a formatted interval gives it back, bounds in ascending order. */
  lemma FormatParseRoundTrip(iv: Interval)
    ensures ParseInterval(FormatInterval(iv)) == Ok(Normalize(iv))
  {
    var s := FormatInterval(iv);
    var a, b := IntToDecimal(iv.start), IntToDecimal(iv.end);
    DecimalHasNoWhitespaceOrHyphen(iv.start);
    DecimalHasNoWhitespaceOrHyphen(iv.end);
    assert forall k :: 0 <= k < |s| ==> !IsWhitespace(s[k]) by {
      forall k | 0 <= k < |s|
        ensures !IsWhitespace(s[k])
      {
        if k < |a| {
          assert s[k] == a[k];
        } else if k > |a| {
          assert s[k] == b[k - |a| - 1];
        }
      }
    }
    TrimNoWhitespace(s);
    FragmentsOfFormat(iv);
    DecimalIsValidInteger(iv.start);
    DecimalIsValidInteger(iv.end);
  }

  /** A well-formed interval survives formatting and parsing unchanged. */
  lemma FormatParseIdentity(iv: Interval)
    requires WellFormed(iv)
    ensures ParseInterval(FormatInterval(iv)) == Ok(iv)
  {
    FormatParseRoundTrip(iv);
  }

  /** The list form of the round trip. */
  lemma {:induction false} FormatParseListRoundTrip(ivs: seq<Interval>)
    requires AllWellFormed(ivs)
    ensures ParseIntervals(FormatIntervals(ivs)) == Ok(ivs)
  {
    var ss := FormatIntervals(ivs);
    forall k | 0 <= k < |ivs|
      ensures ParseInterval(ss[k]) == Ok(ivs[k])
    {
      FormatParseIdentity(ivs[k]);
    }
    var r := ParseIntervals(ss);
    assert r.Ok?;
    assert r.value == ivs;
  }

  /** What the formatter prints is again a valid interval string. */
  lemma FormatIsValid(iv: Interval)
    ensures FormatInterval(iv) != [] && IsValidIntervalFormat(FormatInterval(iv))
  {
    var a, b := IntToDecimal(iv.start), IntToDecimal(iv.end);
    var s := FormatInterval(iv);
    assert s[..|a|] == a && s[|a|] == '-' && s[|a| + 1..] == b;
    DecimalIsValidInteger(iv.start);
    DecimalIsValidInteger(iv.end);
    assert SeparatorAt(s, |a|);
    FormatMeansSeparator(s);
  }

  /** The four sign shapes of the case table: both bounds non-negative, a negative
      start, a negative end, both negative. */
  lemma ParseNonNegativeExample()
    ensures ParseInterval("10-20") == Ok(Interval(10, 20))
  {
    assert IntToDecimal(10) == "10" && IntToDecimal(20) == "20";
    assert FormatInterval(Interval(10, 20)) == "10-20";
    FormatParseRoundTrip(Interval(10, 20));
  }

  lemma ParseNegativeStartExample()
    ensures ParseInterval("-5-15") == Ok(Interval(-5, 15))
  {
    assert IntToDecimal(-5) == "-5" && IntToDecimal(15) == "15";
    assert FormatInterval(Interval(-5, 15)) == "-5-15";
    FormatParseRoundTrip(Interval(-5, 15));
  }

  lemma ParseNegativeEndExample()
    ensures ParseInterval("10--5") == Ok(Interval(-5, 10))
  {
    assert IntToDecimal(10) == "10" && IntToDecimal(-5) == "-5";
    assert FormatInterval(Interval(10, -5)) == "10--5";
    FormatParseRoundTrip(Interval(10, -5));
  }

  lemma ParseBothNegativeExample()
    ensures ParseInterval("-5--15") == Ok(Interval(-15, -5))
  {
    assert IntToDecimal(-5) == "-5" && IntToDecimal(-15) == "-15";
    assert FormatInterval(Interval(-5, -15)) == "-5--15";
    FormatParseRoundTrip(Interval(-5, -15));
  }

  /** Reversed bounds come back in ascending order. */
  lemma ParseReversedExample()
    ensures ParseInterval("20-10") == Ok(Interval(10, 20))
  {
    assert IntToDecimal(20) == "20" && IntToDecimal(10) == "10";
    assert FormatInterval(Interval(20, 10)) == "20-10";
    FormatParseRoundTrip(Interval(20, 10));
  }

  /** Strings the parser rejects: a lone number and a blank string. */
  lemma ParseErrorExamples()
    ensures ParseInterval("-5") == Err(InvalidFormat("-5"))
    ensures ParseInterval("   ") == Err(EmptyInterval)
  {
  }

  // ------------------------------------------- agreement with the validator

  /** Digits and whitespace contain no hyphen. */
  lemma NoHyphen(x: string)
    requires forall k :: 0 <= k < |x| ==> IsDigit(x[k]) || IsWhitespace(x[k])
    ensures '-' !in x
  {
  }

  /** An integer literal with whitespace around it is a valid integer with the
      literal's value. */
  lemma PaddedValue(w0: string, core: string, w1: string)
    requires AllWhitespace(w0) && AllWhitespace(w1) && IsSignedDigits(core)
    ensures IsValidInteger(w0 + core + w1) && IntegerValue(w0 + core + w1) == SignedValue(core)
  {
    assert IsDigit(core[|core| - 1]) by {
      if core[0] == '-' {
        assert core[|core| - 1] == core[1..][|core| - 2];
      }
    }
    TrimPadded(w0, core, w1);
  }

  /** How the first bound, with trailing whitespace, splits on hyphens. */
  lemma SplitLeftBound(tl: string, w1: string)
    requires IsSignedDigits(tl) && AllWhitespace(w1)
    ensures Split(tl + w1, '-') == if tl[0] == '-' then [[], tl[1..] + w1] else [tl + w1]
  {
    if tl[0] == '-' {
      var d := tl[1..] + w1;
      assert tl + w1 == [] + ['-'] + d;
      assert forall k :: 0 <= k < |d| ==> IsDigit(d[k]) || IsWhitespace(d[k]) by {
        forall k | 0 <= k < |d|
          ensures IsDigit(d[k]) || IsWhitespace(d[k])
        {
          if k < |tl| - 1 {
            assert d[k] == tl[1..][k];
          } else {
            assert d[k] == w1[k - |tl| + 1];
          }
        }
      }
      NoHyphen(d);
      SplitAppend([], d, '-');
      SplitNoSeparator(d, '-');
    } else {
      var d := tl + w1;
      assert forall k :: 0 <= k < |d| ==> IsDigit(d[k]) || IsWhitespace(d[k]) by {
        forall k | 0 <= k < |d|
          ensures IsDigit(d[k]) || IsWhitespace(d[k])
        {
          if k >= |tl| {
            assert d[k] == w1[k - |tl|];
          }
        }
      }
      NoHyphen(d);
      SplitNoSeparator(d, '-');
    }
  }

  /** How the second bound, with leading whitespace, splits on hyphens. */
  lemma SplitRightBound(w2: string, tr: string)
    requires IsSignedDigits(tr) && AllWhitespace(w2)
    ensures Split(w2 + tr, '-') == if tr[0] == '-' then [w2, tr[1..]] else [w2 + tr]
  {
    NoHyphen(w2);
    NoHyphen(tr[1..]);
    if tr[0] == '-' {
      assert w2 + tr == w2 + ['-'] + tr[1..];
      SplitAppend(w2, tr[1..], '-');
      SplitNoSeparator(w2, '-');
      SplitNoSeparator(tr[1..], '-');
    } else {
      var d := w2 + tr;
      assert forall k :: 0 <= k < |d| ==> IsDigit(d[k]) || IsWhitespace(d[k]) by {
        forall k | 0 <= k < |d|
          ensures IsDigit(d[k]) || IsWhitespace(d[k])
        {
          if k >= |w2| {
            assert d[k] == tr[k - |w2|];
          }
        }
      }
      NoHyphen(d);
      SplitNoSeparator(d, '-');
    }
  }

  /** The source's exact failure: a non-negative start, then whitespace between
      the separator and the sign of a negative end. */
  predicate SpacedNegativeEnd(s: string, i: int)
    requires SeparatorAt(s, i)
  {
    Trim(s[..i])[0] != '-' && Trim(s[i + 1..])[0] == '-' && IsWhitespace(s[i + 1])
  }

  /** How `tl w1 - w2 tr` splits on hyphens, for two trimmed integer literals
      with whitespace between them and the separator. */
  lemma PartsOfBounds(tl: string, w1: string, w2: string, tr: string)
    requires IsSignedDigits(tl) && IsSignedDigits(tr)
    requires AllWhitespace(w1) && AllWhitespace(w2)
    ensures var core := tl + w1 + "-" + w2 + tr;
            core != [] && core[0] == tl[0] &&
            Split(core, '-') ==
              (if tl[0] == '-' then [[], tl[1..] + w1] else [tl + w1]) +
              (if tr[0] == '-' then [w2, tr[1..]] else [w2 + tr])
  {
    var a, b := tl + w1, w2 + tr;
    assert tl + w1 + "-" + w2 + tr == a + ['-'] + b;
    SplitAppend(a, b, '-');
    SplitLeftBound(tl, w1);
    SplitRightBound(w2, tr);
  }

  /** The case table on `tl w1 - w2 tr`: it fails only for a non-negative start
      and whitespace before the sign of a negative end, and otherwise picks two
      fragments with the literals' values. */
  lemma FragmentsOfBounds(tl: string, w1: string, w2: string, tr: string)
    requires IsSignedDigits(tl) && IsSignedDigits(tr)
    requires AllWhitespace(w1) && AllWhitespace(w2)
    ensures tl + w1 + "-" + w2 + tr != []
    ensures var f := Fragments(tl + w1 + "-" + w2 + tr);
            if tl[0] != '-' && tr[0] == '-' && w2 != [] then f == None
            else
              f.Some? && IsValidInteger(f.value.0) && IsValidInteger(f.value.1) &&
              IntegerValue(f.value.0) == SignedValue(tl) && IntegerValue(f.value.1) == SignedValue(tr)
  {
    PartsOfBounds(tl, w1, w2, tr);
    StartFragment(tl, w1);
    EndFragment(w2, tr);
    EndFragment([], tr);
    assert [] + tr == tr;
    if tl[0] == '-' && tr[0] == '-' {
      FragmentsBothNegative(tl, w1, w2, tr);
    } else if tl[0] == '-' {
      FragmentsNegativeStart(tl, w1, w2, tr);
    } else if tr[0] == '-' {
      FragmentsNegativeEnd(tl, w1, w2, tr);
    } else {
      FragmentsNonNegative(tl, w1, w2, tr);
    }
  }

  lemma FragmentsBothNegative(tl: string, w1: string, w2: string, tr: string)
    requires IsSignedDigits(tl) && IsSignedDigits(tr)
    requires AllWhitespace(w1) && AllWhitespace(w2)
    requires tl[0] == '-' && tr[0] == '-'
    ensures tl + w1 + "-" + w2 + tr != []
    ensures Fragments(tl + w1 + "-" + w2 + tr) == Some((tl + w1, w2 + tr))
  {
    var core := tl + w1 + "-" + w2 + tr;
    PartsOfBounds(tl, w1, w2, tr);
    var parts := Split(core, '-');
    HyphenPrefix(tl, w1);
    var rest := [w2, tr[1..]];
    assert parts[2..] == rest;
    assert Join(rest, "-") == w2 + "-" + tr[1..];
    assert w2 + "-" + tr[1..] == w2 + tr by {
      HyphenPrefix(tr, []);
      assert tr + [] == tr;
    }
  }

  lemma FragmentsNegativeStart(tl: string, w1: string, w2: string, tr: string)
    requires IsSignedDigits(tl) && IsSignedDigits(tr)
    requires AllWhitespace(w1) && AllWhitespace(w2)
    requires tl[0] == '-' && tr[0] != '-'
    ensures tl + w1 + "-" + w2 + tr != []
    ensures Fragments(tl + w1 + "-" + w2 + tr) == Some((tl + w1, w2 + tr))
  {
    var core := tl + w1 + "-" + w2 + tr;
    PartsOfBounds(tl, w1, w2, tr);
    var parts := Split(core, '-');
    HyphenPrefix(tl, w1);
    assert parts[2..] == [w2 + tr];
  }

  lemma FragmentsNegativeEnd(tl: string, w1: string, w2: string, tr: string)
    requires IsSignedDigits(tl) && IsSignedDigits(tr)
    requires AllWhitespace(w1) && AllWhitespace(w2)
    requires tl[0] != '-' && tr[0] == '-'
    ensures tl + w1 + "-" + w2 + tr != []
    ensures Fragments(tl + w1 + "-" + w2 + tr) == if w2 == [] then Some((tl + w1, tr)) else None
  {
    PartsOfBounds(tl, w1, w2, tr);
    HyphenPrefix(tr, []);
    assert tr + [] == tr;
  }

  lemma FragmentsNonNegative(tl: string, w1: string, w2: string, tr: string)
    requires IsSignedDigits(tl) && IsSignedDigits(tr)
    requires AllWhitespace(w1) && AllWhitespace(w2)
    requires tl[0] != '-' && tr[0] != '-'
    ensures tl + w1 + "-" + w2 + tr != []
    ensures Fragments(tl + w1 + "-" + w2 + tr) == Some((tl + w1, w2 + tr))
  {
    PartsOfBounds(tl, w1, w2, tr);
  }

  lemma StartFragment(tl: string, w1: string)
    requires IsSignedDigits(tl) && AllWhitespace(w1)
    ensures IsValidInteger(tl + w1) && IntegerValue(tl + w1) == SignedValue(tl)
  {
    PaddedValue([], tl, w1);
    assert [] + tl + w1 == tl + w1;
  }

  lemma HyphenPrefix(t: string, w: string)
    requires |t| > 0 && t[0] == '-'
    ensures "-" + (t[1..] + w) == t + w
  {
    assert t == "-" + t[1..];
  }

  lemma EndFragment(w2: string, tr: string)
    requires IsSignedDigits(tr) && AllWhitespace(w2)
    ensures IsValidInteger(w2 + tr) && IntegerValue(w2 + tr) == SignedValue(tr)
  {
    PaddedValue(w2, tr, []);
    assert w2 + tr + [] == w2 + tr;
  }

  lemma Regroup(w0: string, tl: string, w1: string, w2: string, tr: string, w3: string)
    ensures (w0 + tl + w1) + ['-'] + (w2 + tr + w3) == w0 + (tl + w1 + "-" + w2 + tr) + w3
  {
  }

  /** A validated string is its two literals with whitespace around each, on
      the two sides of the separator. */
  lemma PadsOfValidated(s: string, i: int) returns (w0: string, w1: string, w2: string, w3: string)
    requires SeparatorAt(s, i)
    ensures AllWhitespace(w0) && AllWhitespace(w1) && AllWhitespace(w2) && AllWhitespace(w3)
    ensures s == w0 + (Trim(s[..i]) + w1 + "-" + w2 + Trim(s[i + 1..])) + w3
    ensures IsWhitespace(s[i + 1]) <==> w2 != []
  {
    var l, r := s[..i], s[i + 1..];
    assert s == l + ['-'] + r;
    w0, w1 := TrimSplit(l);
    w2, w3 := TrimSplit(r);
    Regroup(w0, Trim(l), w1, w2, Trim(r), w3);
    FirstOfPadded(w2, Trim(r), w3);
  }

  lemma FirstOfPadded(w: string, t: string, w': string)
    requires AllWhitespace(w) && IsSignedDigits(t)
    ensures |w + t + w'| > 0
    ensures IsWhitespace((w + t + w')[0]) <==> w != []
  {
    if w == [] {
      assert (w + t + w')[0] == t[0];
    } else {
      assert (w + t + w')[0] == w[0];
    }
  }

  /** The trim of a validated string: both literals, and the whitespace between
      each of them and the separator. */
  lemma TrimValidated(s: string, i: int) returns (w1: string, w2: string)
    requires SeparatorAt(s, i)
    ensures AllWhitespace(w1) && AllWhitespace(w2)
    ensures Trim(s) == Trim(s[..i]) + w1 + "-" + w2 + Trim(s[i + 1..])
    ensures IsWhitespace(s[i + 1]) <==> w2 != []
  {
    var w0, w3;
    w0, w1, w2, w3 := PadsOfValidated(s, i);
    var tl, tr := Trim(s[..i]), Trim(s[i + 1..]);
    var core := tl + w1 + "-" + w2 + tr;
    assert core[0] == tl[0];
    LastDigit(tr);
    assert core[|core| - 1] == tr[|tr| - 1];
    TrimPadded(w0, core, w3);
  }

  lemma LastDigit(t: string)
    requires IsSignedDigits(t)
    ensures IsDigit(t[|t| - 1])
  {
    if t[0] == '-' {
      assert t[|t| - 1] == t[1..][|t| - 2];
    }
  }

  /**
   * On every string the validator accepts, the parser returns the values on the
   * two sides of the separator, in ascending order, except in one shape: a
   * non-negative start and whitespace between the separator and the sign of a
   * negative end (`"5- -10"`), which the case table rejects as a format error.
   */
  lemma ValidatedParse(s: string, i: int)
    requires SeparatorAt(s, i)
    ensures ParseInterval(s) ==
              if SpacedNegativeEnd(s, i) then Err(InvalidFormat(s))
              else Ok(Normalize(Interval(IntegerValue(s[..i]), IntegerValue(s[i + 1..]))))
  {
    var w1, w2 := TrimValidated(s, i);
    FragmentsOfBounds(Trim(s[..i]), w1, w2, Trim(s[i + 1..]));
  }

  /** The validator accepts `"5- -10"` (see `Validator.AcceptedSpacedExample`), yet the
      parser rejects it. */
  lemma SpacedNegativeEndExample()
    ensures ParseInterval("5- -10") == Err(InvalidFormat("5- -10"))
  {
    SpacedNegativeEndShape();
    ValidatedParse("5- -10", 1);
  }

  lemma SpacedNegativeEndShape()
    ensures SeparatorAt("5- -10", 1) && SpacedNegativeEnd("5- -10", 1)
  {
    var s := "5- -10";
    assert s[..1] == "5" && s[2..] == " -10";
    TrimNoWhitespace("5");
    TrimNoWhitespace("-10");
    assert " -10" == [' '] + "-10";
    TrimCons(' ', "-10");
  }
}
