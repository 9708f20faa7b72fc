/**
 * The structural validator: a character-level recogniser for the range
 * grammar `\s*-?\d+\s*-\s*-?\d+\s*`, the integer-literal check the parser
 * shares, and the loop that collects one error per bad element.
 */
module Validator {
  import opened Results
  import opened Text

  /** `isValidInteger`: after trimming, an optional minus sign and one or more digits. */
  predicate IsValidInteger(s: string)
  {
    IsSignedDigits(Trim(s))
  }

  // ------------------------------------------------------------ recogniser

  /** Where the scan is inside one signed number. */
  datatype Phase =
    | Blank     // leading whitespace, nothing of the number seen yet
    | Signed    // just read the minus sign
    | InDigits  // inside the digits
    | Trailing  // whitespace after the digits

  /** A recogniser state: the phase inside the first (`Left`) or second (`Right`)
      number of the range. */
  datatype State = Left(phase: Phase) | Right(phase: Phase)

  /** Moves within one number's phases, on a character that is not the separator. */
  function PhaseStep(p: Phase, c: char): (r: Option<Phase>)
  {
    match p
    case Blank =>
      if IsWhitespace(c) then Some(Blank)
      else if c == '-' then Some(Signed)
      else if IsDigit(c) then Some(InDigits)
      else None
    case Signed =>
      if IsDigit(c) then Some(InDigits) else None
    case InDigits =>
      if IsDigit(c) then Some(InDigits)
      else if IsWhitespace(c) then Some(Trailing)
      else None
    case Trailing =>
      if IsWhitespace(c) then Some(Trailing) else None
  }

  /** A number is complete once at least one digit has been read. */
  predicate Complete(p: Phase)
  {
    p == InDigits || p == Trailing
  }

  function Step(q: State, c: char): Option<State>
  {
    match q
    case Left(p) =>
      if c == '-' && Complete(p) then Some(Right(Blank))
      else (match PhaseStep(p, c) case None => None case Some(p') => Some(Left(p')))
    case Right(p) =>
      match PhaseStep(p, c) case None => None case Some(p') => Some(Right(p'))
  }

  /** The recogniser, run from state `q` over `s`. */
  predicate Accepts(q: State, s: string)
    decreases |s|
  {
    if s == [] then q.Right? && Complete(q.phase)
    else match Step(q, s[0])
      case None => false
      case Some(q') => Accepts(q', s[1..])
  }

  /** `isValidIntervalFormat`. */
  predicate IsValidIntervalFormat(s: string)
  {
    Accepts(Left(Blank), s)
  }

  // ------------------------------------------- reference language, and proof

  /** The strings that lead from phase `p` to the end of a complete number. */
  predicate NumberTail(p: Phase, u: string)
  {
    match p
    case Blank => IsValidInteger(u)
    case Signed => IsDigits(TrimEnd(u))
    case InDigits => AllDigits(TrimEnd(u))
    case Trailing => AllWhitespace(u)
  }

  /** The reference reading of the grammar: a hyphen at `i` with a valid integer
      literal on each side of it. */
  predicate SeparatorAt(s: string, i: int)
  {
    0 <= i < |s| && s[i] == '-' && IsValidInteger(s[..i]) && IsValidInteger(s[i + 1..])
  }

  lemma NumberTailEmpty(p: Phase)
    ensures NumberTail(p, []) <==> Complete(p)
  {
  }

  /** One character of a number: `NumberTail` follows `PhaseStep`. */
  lemma NumberTailStep(p: Phase, c: char, u: string)
    ensures NumberTail(p, [c] + u) <==>
              PhaseStep(p, c).Some? && NumberTail(PhaseStep(p, c).value, u)
  {
    match p
    case Blank => BlankStep(c, u);
    case Signed => SignedStep(c, u);
    case InDigits => InDigitsStep(c, u);
    case Trailing => TrailingStep(c, u);
  }

  lemma BlankStep(c: char, u: string)
    ensures IsValidInteger([c] + u) <==>
              if IsWhitespace(c) then IsValidInteger(u)
              else if c == '-' then IsDigits(TrimEnd(u))
              else IsDigit(c) && AllDigits(TrimEnd(u))
  {
    TrimCons(c, u);
    if !IsWhitespace(c) {
      var t := [c] + TrimEnd(u);
      assert t[1..] == TrimEnd(u);
      assert t[0] == c;
      if IsDigit(c) && AllDigits(TrimEnd(u)) {
        assert AllDigits(t);
      }
    }
  }

  lemma SignedStep(c: char, u: string)
    ensures IsDigits(TrimEnd([c] + u)) <==> IsDigit(c) && AllDigits(TrimEnd(u))
  {
    TrimEndCons(c, u);
    if !(IsWhitespace(c) && AllWhitespace(u)) {
      var t := [c] + TrimEnd(u);
      assert t[0] == c;
      assert t[1..] == TrimEnd(u);
      if IsDigit(c) && AllDigits(TrimEnd(u)) {
        assert AllDigits(t);
      }
    }
  }

  lemma InDigitsStep(c: char, u: string)
    ensures AllDigits(TrimEnd([c] + u)) <==>
              if IsDigit(c) then AllDigits(TrimEnd(u))
              else IsWhitespace(c) && AllWhitespace(u)
  {
    TrimEndCons(c, u);
    if !(IsWhitespace(c) && AllWhitespace(u)) {
      var t := [c] + TrimEnd(u);
      assert t[0] == c;
      assert t[1..] == TrimEnd(u);
      if IsDigit(c) && AllDigits(TrimEnd(u)) {
        assert AllDigits(t);
      }
    }
  }

  lemma TrailingStep(c: char, u: string)
    ensures AllWhitespace([c] + u) <==> IsWhitespace(c) && AllWhitespace(u)
  {
    var s := [c] + u;
    assert s[0] == c;
    assert s[1..] == u;
  }

  /** Inside the second number, the recogniser accepts exactly the tails of a
      valid integer literal. */
  lemma {:induction false} RightAccepts(p: Phase, u: string)
    ensures Accepts(Right(p), u) <==> NumberTail(p, u)
    decreases |u|
  {
    if u == [] {
      NumberTailEmpty(p);
    } else {
      var c := u[0];
      assert u == [c] + u[1..];
      NumberTailStep(p, c, u[1..]);
      match PhaseStep(p, c)
      case None =>
      case Some(p') =>
        RightAccepts(p', u[1..]);
    }
  }

  /** How the first number ends at the separator at `i`. */
  predicate LeftSplit(p: Phase, u: string, i: int)
  {
    0 <= i < |u| && u[i] == '-' && NumberTail(p, u[..i]) && IsValidInteger(u[i + 1..])
  }

  /** Shifting a split point past the first character. */
  lemma LeftSplitCons(p: Phase, u: string, i: int)
    requires |u| > 0 && 0 < i
    ensures LeftSplit(p, u, i) <==>
              PhaseStep(p, u[0]).Some? && LeftSplit(PhaseStep(p, u[0]).value, u[1..], i - 1)
  {
    if i < |u| {
      assert u[..i] == [u[0]] + u[1..][..i - 1];
      assert u[i + 1..] == u[1..][i..];
      NumberTailStep(p, u[0], u[1..][..i - 1]);
    }
  }

  /** A split can only sit at the first character if that character is the separator. */
  lemma LeftSplitAtZero(p: Phase, u: string)
    requires |u| > 0
    ensures LeftSplit(p, u, 0) <==> u[0] == '-' && Complete(p) && IsValidInteger(u[1..])
  {
    assert u[..0] == [];
    NumberTailEmpty(p);
  }

  /** At a separator that ends a complete first number, no later split exists. */
  lemma LeftSplitOnlyAtSeparator(p: Phase, u: string, i: int)
    requires |u| > 0 && u[0] == '-' && Complete(p)
    requires LeftSplit(p, u, i)
    ensures i == 0
  {
    if i > 0 {
      LeftSplitCons(p, u, i);
    }
  }

  /** The splits of `u` from phase `p` are those of `u[1..]` from the next phase,
      shifted by one, when the first character is not the separator. */
  lemma LeftSplitShift(p: Phase, u: string)
    requires |u| > 0 && !(u[0] == '-' && Complete(p))
    ensures PhaseStep(p, u[0]).None? ==> !exists i :: LeftSplit(p, u, i)
    ensures PhaseStep(p, u[0]).Some? ==>
              ((exists i :: LeftSplit(p, u, i)) <==>
               (exists j :: LeftSplit(PhaseStep(p, u[0]).value, u[1..], j)))
  {
    LeftSplitAtZero(p, u);
    forall i | LeftSplit(p, u, i)
      ensures PhaseStep(p, u[0]).Some? && LeftSplit(PhaseStep(p, u[0]).value, u[1..], i - 1)
    {
      LeftSplitCons(p, u, i);
    }
    if PhaseStep(p, u[0]).Some? {
      forall j | LeftSplit(PhaseStep(p, u[0]).value, u[1..], j)
        ensures LeftSplit(p, u, j + 1)
      {
        LeftSplitCons(p, u, j + 1);
      }
    }
  }

  /** Inside the first number, the recogniser accepts exactly the strings that
      split into a tail of that number, a hyphen, and a valid integer literal. */
  lemma {:induction false} LeftAccepts(p: Phase, u: string)
    ensures Accepts(Left(p), u) <==> exists i :: LeftSplit(p, u, i)
    decreases |u|
  {
    if u != [] {
      var c := u[0];
      if c == '-' && Complete(p) {
        RightAccepts(Blank, u[1..]);
        LeftSplitAtZero(p, u);
        forall i | LeftSplit(p, u, i)
          ensures i == 0
        {
          LeftSplitOnlyAtSeparator(p, u, i);
        }
      } else {
        LeftSplitShift(p, u);
        match PhaseStep(p, c)
        case None =>
        case Some(p') =>
          LeftAccepts(p', u[1..]);
      }
    }
  }

  /** The recogniser accepts exactly the strings with a hyphen that has a valid
      integer literal on each side: the language `\s*-?\d+\s*-\s*-?\d+\s*`. */
  lemma FormatMeansSeparator(s: string)
    ensures IsValidIntervalFormat(s) <==> exists i :: SeparatorAt(s, i)
  {
    LeftAccepts(Blank, s);
    forall i
      ensures LeftSplit(Blank, s, i) <==> SeparatorAt(s, i)
    {
    }
  }

  /** Strings the range grammar accepts, with a non-negative and a negative start. */
  lemma AcceptedExamples()
    ensures IsValidIntervalFormat("10-20")
    ensures IsValidIntervalFormat("-5-15")
  {
  }

  /** The grammar also accepts whitespace between the separator and the sign of a
      negative end. */
  lemma AcceptedSpacedExample()
    ensures IsValidIntervalFormat("5- -10")
  {
  }

  /** Strings the range grammar rejects: a word, a lone number, a missing end. */
  lemma RejectedExamples()
    ensures !IsValidIntervalFormat("invalid-format")
    ensures !IsValidIntervalFormat("10")
    ensures !IsValidIntervalFormat("10-")
  {
    assert "invalid-format"[0] == 'i';
    assert Step(Left(Blank), 'i') == None;
  }

  // ------------------------------------------------------ error collection

  /** An element of the array handed to the validator: a string, or some other
      JSON value together with what a template literal prints for it. */
  datatype Entry = Str(text: string) | NonString(shown: string)

  /** The validator's argument: an array, or a value that is not an array. */
  datatype Input = Array(entries: seq<Entry>) | NotArray

  const NotArrayError: string := "Intervals must be an array"

  /** What `${interval}` prints for an element. */
  function Shown(e: Entry): string
  {
    match e
    case Str(t) => t
    case NonString(sh) => sh
  }

  /** An element that passes: a non-empty string in the range grammar. */
  predicate ValidEntry(e: Entry)
  {
    e.Str? && e.text != [] && IsValidIntervalFormat(e.text)
  }

  /** The errors one element contributes: exactly one for an invalid element, none
      otherwise. An empty or non-string element is reported without the format check. */
  function EntryErrors(e: Entry): (errs: seq<string>)
    ensures |errs| == if ValidEntry(e) then 0 else 1
    ensures (e.NonString? || e.text == []) ==> errs == ["Invalid interval: " + Shown(e)]
    ensures e.Str? && e.text != [] && !ValidEntry(e) ==>
              errs == ["Invalid input interval format: " + e.text + ". Expected format: 'start-end'"]
  {
    if e.NonString? || e.text == [] then ["Invalid interval: " + Shown(e)]
    else if !IsValidIntervalFormat(e.text) then
      ["Invalid input interval format: " + e.text + ". Expected format: 'start-end'"]
    else []
  }

  /** The errors of a list of elements, in element order. */
  function CollectErrors(es: seq<Entry>): seq<string>
    decreases |es|
  {
    if es == [] then [] else CollectErrors(es[..|es| - 1]) + EntryErrors(es[|es| - 1])
  }

  function ValidationErrors(input: Input): seq<string>
  {
    match input
    case NotArray => [NotArrayError]
    case Array(es) => CollectErrors(es)
  }

  /** The validator's answer: `{ isValid, errors }`. */
  datatype Validation = Validation(isValid: bool, errors: seq<string>)

  /** `validateIntervalStrings`: one pass over the elements that collects every
      error instead of stopping at the first. */
  method ValidateIntervalStrings(input: Input) returns (v: Validation)
    ensures v.errors == ValidationErrors(input)
    ensures v.isValid <==> v.errors == []
    ensures v.isValid <==> input.Array? && forall k :: 0 <= k < |input.entries| ==> ValidEntry(input.entries[k])
  {
    if input.NotArray? {
      return Validation(false, [NotArrayError]);
    }
    var es := input.entries;
    var errors: seq<string> := [];
    for i := 0 to |es|
      invariant errors == CollectErrors(es[..i])
    {
      assert es[..i + 1][..i] == es[..i];
      var e := es[i];
      if e.NonString? || e.text == [] {
        errors := errors + ["Invalid interval: " + Shown(e)];
        continue;
      }
      if !IsValidIntervalFormat(e.text) {
        errors := errors + ["Invalid input interval format: " + e.text + ". Expected format: 'start-end'"];
      }
    }
    assert es[..|es|] == es;
    NoErrorsIffAllValid(es);
    v := Validation(errors == [], errors);
  }

  /** Errors are reported in element order: the errors of a concatenation are the
      errors of each part, one after the other. */
  lemma {:induction false} CollectErrorsAppend(a: seq<Entry>, b: seq<Entry>)
    ensures CollectErrors(a + b) == CollectErrors(a) + CollectErrors(b)
    decreases |b|
  {
    if b == [] {
      assert a + b == a;
    } else {
      var b' := b[..|b| - 1];
      assert (a + b)[..|a + b| - 1] == a + b';
      CollectErrorsAppend(a, b');
    }
  }

  /** The number of invalid elements, counted from the front. */
  function CountInvalid(es: seq<Entry>): nat
  {
    if es == [] then 0 else (if ValidEntry(es[0]) then 0 else 1) + CountInvalid(es[1..])
  }

  /** Errors are collected, not short-circuited: one error per invalid element. */
  lemma {:induction false} ErrorCount(es: seq<Entry>)
    ensures |CollectErrors(es)| == CountInvalid(es)
  {
    if es != [] {
      ErrorCount(es[1..]);
      assert es == [es[0]] + es[1..];
      CollectErrorsAppend([es[0]], es[1..]);
      assert [es[0]][..0] == [];
    }
  }

  /** The list passes exactly when every element does. */
  lemma {:induction false} NoErrorsIffAllValid(es: seq<Entry>)
    ensures CollectErrors(es) == [] <==> forall k :: 0 <= k < |es| ==> ValidEntry(es[k])
    decreases |es|
  {
    if es != [] {
      var init := es[..|es| - 1];
      NoErrorsIffAllValid(init);
      if forall k :: 0 <= k < |init| ==> ValidEntry(init[k]) {
        assert forall k :: 0 <= k < |es| - 1 ==> es[k] == init[k];
      } else {
        var k :| 0 <= k < |init| && !ValidEntry(init[k]);
        assert es[k] == init[k];
      }
    }
  }
}
