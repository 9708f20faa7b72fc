/**
 * The JavaScript string built-ins the core relies on, over `seq<char>`:
 * `String.prototype.trim`, `split('-')`, `Array.prototype.join`, and the
 * decimal rendering and reading of integers (template literals, `parseInt`).
 * Whitespace is the ASCII subset of JavaScript's `\s`.
 */
module Text {

  predicate IsWhitespace(c: char)
  {
    c == ' ' || c == '\t' || c == '\n' || c == '\r' || c == '\U{000B}' || c == '\U{000C}'
  }

  predicate IsDigit(c: char)
  {
    '0' <= c <= '9'
  }

  predicate AllWhitespace(s: string)
  {
    forall k :: 0 <= k < |s| ==> IsWhitespace(s[k])
  }

  predicate AllDigits(s: string)
  {
    forall k :: 0 <= k < |s| ==> IsDigit(s[k])
  }

  /** One or more decimal digits: `\d+`. */
  predicate IsDigits(s: string)
  {
    |s| > 0 && AllDigits(s)
  }

  /** A decimal literal with an optional minus sign: `-?\d+`. */
  predicate IsSignedDigits(s: string)
  {
    IsDigits(s) || (|s| > 1 && s[0] == '-' && IsDigits(s[1..]))
  }

  // ---------------------------------------------------------------- trimming

  /** Drops the longest all-whitespace suffix. */
  function TrimEnd(s: string): string
  {
    if s == [] || AllWhitespace(s) then [] else [s[0]] + TrimEnd(s[1..])
  }

  /** Drops the longest all-whitespace prefix. */
  function TrimStart(s: string): string
  {
    if s != [] && IsWhitespace(s[0]) then TrimStart(s[1..]) else s
  }

  /** `TrimEnd` keeps a prefix, drops only whitespace, and leaves no whitespace at the end. */
  lemma {:induction false} TrimEndSpec(s: string)
    ensures |TrimEnd(s)| <= |s| && TrimEnd(s) == s[..|TrimEnd(s)|]
    ensures AllWhitespace(s[|TrimEnd(s)|..])
    ensures TrimEnd(s) != [] ==> !IsWhitespace(TrimEnd(s)[|TrimEnd(s)| - 1])
  {
    if !(s == [] || AllWhitespace(s)) {
      var rest := TrimEnd(s[1..]);
      TrimEndSpec(s[1..]);
      assert s[1..][|rest|..] == s[|rest| + 1..];
    }
  }

  /** `TrimStart` keeps a suffix, drops only whitespace, and leaves no whitespace at the start. */
  lemma {:induction false} TrimStartSpec(s: string)
    ensures |TrimStart(s)| <= |s| && TrimStart(s) == s[|s| - |TrimStart(s)|..]
    ensures AllWhitespace(s[..|s| - |TrimStart(s)|])
    ensures TrimStart(s) != [] ==> !IsWhitespace(TrimStart(s)[0])
  {
    if s != [] && IsWhitespace(s[0]) {
      var rest := TrimStart(s[1..]);
      TrimStartSpec(s[1..]);
      assert s[..|s| - |rest|] == [s[0]] + s[1..][..|s[1..]| - |rest|];
    }
  }

  /** `String.prototype.trim`: whitespace removed from both ends. */
  function Trim(s: string): string
  {
    TrimStart(TrimEnd(s))
  }

  lemma TrimEndOfWhitespace(s: string)
    requires AllWhitespace(s)
    ensures TrimEnd(s) == []
  {
  }

  lemma TrimEndCons(c: char, u: string)
    ensures TrimEnd([c] + u) == if IsWhitespace(c) && AllWhitespace(u) then [] else [c] + TrimEnd(u)
  {
    assert ([c] + u)[1..] == u;
    if IsWhitespace(c) && AllWhitespace(u) {
      assert AllWhitespace([c] + u);
    } else if !IsWhitespace(c) {
      assert ([c] + u)[0] == c;
    } else {
      var k :| 0 <= k < |u| && !IsWhitespace(u[k]);
      assert ([c] + u)[k + 1] == u[k];
    }
  }

  /** Trimming a string that starts with `c` either drops `c` (whitespace) or keeps
      it and trims only the end of the rest. */
  lemma TrimCons(c: char, u: string)
    ensures Trim([c] + u) == if IsWhitespace(c) then Trim(u) else [c] + TrimEnd(u)
  {
    TrimEndCons(c, u);
    if IsWhitespace(c) {
      if AllWhitespace(u) {
        TrimEndOfWhitespace(u);
      } else {
        assert ([c] + TrimEnd(u))[1..] == TrimEnd(u);
      }
    }
  }

  /** A string without whitespace is its own trim. */
  lemma TrimNoWhitespace(s: string)
    requires forall k :: 0 <= k < |s| ==> !IsWhitespace(s[k])
    ensures TrimEnd(s) == s && Trim(s) == s
  {
    TrimEndNoWhitespace(s);
    TrimStartNoWhitespace(s);
  }

  lemma {:induction false} TrimEndNoWhitespace(s: string)
    requires forall k :: 0 <= k < |s| ==> !IsWhitespace(s[k])
    ensures TrimEnd(s) == s
    decreases |s|
  {
    if s != [] {
      assert !IsWhitespace(s[0]);
      TrimEndNoWhitespace(s[1..]);
      assert [s[0]] + s[1..] == s;
    }
  }

  lemma TrimStartNoWhitespace(s: string)
    requires forall k :: 0 <= k < |s| ==> !IsWhitespace(s[k])
    ensures TrimStart(s) == s
  {
    if s != [] {
      assert !IsWhitespace(s[0]);
    }
  }

  /** A string trims to nothing exactly when it is all whitespace. */
  lemma TrimEmpty(s: string)
    ensures Trim(s) == [] <==> AllWhitespace(s)
  {
    if AllWhitespace(s) {
      TrimEndOfWhitespace(s);
    } else {
      TrimEndSpec(s);
      TrimStartSpec(TrimEnd(s));
    }
  }

  lemma {:induction false} TrimStartPadded(w: string, y: string)
    requires AllWhitespace(w)
    requires y == [] || !IsWhitespace(y[0])
    ensures TrimStart(w + y) == y
  {
    if w != [] {
      assert (w + y)[1..] == w[1..] + y;
      TrimStartPadded(w[1..], y);
    }
  }

  lemma {:induction false} TrimEndPadded(y: string, w: string)
    requires AllWhitespace(w)
    requires y == [] || !IsWhitespace(y[|y| - 1])
    ensures TrimEnd(y + w) == y
  {
    if y == [] {
      TrimEndOfWhitespace(w);
      assert y + w == w;
    } else {
      assert !AllWhitespace(y + w) by {
        assert (y + w)[|y| - 1] == y[|y| - 1];
      }
      assert (y + w)[1..] == y[1..] + w;
      TrimEndPadded(y[1..], w);
      assert y == [y[0]] + y[1..];
    }
  }

  /** Trimming a core that neither starts nor ends with whitespace, padded with
      whitespace on both sides. */
  lemma TrimPadded(w0: string, core: string, w1: string)
    requires AllWhitespace(w0) && AllWhitespace(w1)
    requires core != [] && !IsWhitespace(core[0]) && !IsWhitespace(core[|core| - 1])
    ensures TrimEnd(w0 + core + w1) == w0 + core
    ensures TrimStart(w0 + core + w1) == core + w1
    ensures Trim(w0 + core + w1) == core
  {
    var s := w0 + core + w1;
    var x, y := w0 + core, core + w1;
    assert x[|x| - 1] == core[|core| - 1];
    assert y[0] == core[0];
    assert s == x + w1 && s == w0 + y;
    TrimEndPadded(x, w1);
    TrimStartPadded(w0, y);
    TrimStartPadded(w0, core);
  }

  /** Every string is its trim with whitespace around it. */
  lemma TrimSplit(s: string) returns (w0: string, w1: string)
    ensures AllWhitespace(w0) && AllWhitespace(w1)
    ensures s == w0 + Trim(s) + w1
  {
    var e := TrimEnd(s);
    var t := TrimStart(e);
    TrimEndSpec(s);
    TrimStartSpec(e);
    w0, w1 := e[..|e| - |t|], s[|e|..];
    assert e == w0 + t;
    assert s == e + w1;
  }

  // ------------------------------------------------------- splitting, joining

  /** `Array.prototype.join`: the parts with `sep` between them ("" for no parts). */
  function Join(parts: seq<string>, sep: string): string
  {
    if parts == [] then []
    else if |parts| == 1 then parts[0]
    else parts[0] + sep + Join(parts[1..], sep)
  }

  /** `String.prototype.split` on one character: the maximal pieces between
      occurrences of `sep`, always at least one (empty pieces included). */
  function Split(s: string, sep: char): (parts: seq<string>)
    ensures |parts| >= 1
    ensures forall p :: p in parts ==> sep !in p
    ensures Join(parts, [sep]) == s
  {
    if s == [] then [[]]
    else
      var rest := Split(s[1..], sep);
      if s[0] == sep then
        assert s == [sep] + s[1..];
        [[]] + rest
      else
        assert rest == [rest[0]] + rest[1..];
        var parts := [[s[0]] + rest[0]] + rest[1..];
        assert parts[1..] == rest[1..];
        assert s == [s[0]] + s[1..];
        parts
  }

  lemma {:induction false} JoinAppend(p: seq<string>, q: seq<string>, sep: string)
    requires |p| >= 1 && |q| >= 1
    ensures Join(p + q, sep) == Join(p, sep) + sep + Join(q, sep)
  {
    if |p| == 1 {
      assert (p + q)[1..] == q;
    } else {
      assert (p + q)[1..] == p[1..] + q;
      JoinAppend(p[1..], q, sep);
    }
  }

  /** Splitting undoes joining when no part contains the separator. */
  lemma {:induction false} SplitJoin(parts: seq<string>, sep: char)
    requires |parts| >= 1
    requires forall p :: p in parts ==> sep !in p
    ensures Split(Join(parts, [sep]), sep) == parts
  {
    var p0 := parts[0];
    if |parts| == 1 {
      SplitNoSeparator(p0, sep);
    } else {
      var tail := Join(parts[1..], [sep]);
      SplitJoin(parts[1..], sep);
      SplitAfterPiece(p0, tail, sep);
      assert parts == [p0] + parts[1..];
    }
  }

  lemma {:induction false} SplitNoSeparator(s: string, sep: char)
    requires sep !in s
    ensures Split(s, sep) == [s]
  {
    if s != [] {
      SplitNoSeparator(s[1..], sep);
      assert s == [s[0]] + s[1..];
    }
  }

  lemma {:induction false} SplitAfterPiece(piece: string, tail: string, sep: char)
    requires sep !in piece
    ensures Split(piece + [sep] + tail, sep) == [piece] + Split(tail, sep)
  {
    var s := piece + [sep] + tail;
    if piece == [] {
      assert s == [sep] + tail;
      assert s[1..] == tail;
    } else {
      assert s[1..] == piece[1..] + [sep] + tail;
      SplitAfterPiece(piece[1..], tail, sep);
      assert [piece[0]] + piece[1..] == piece;
    }
  }

  /** Splitting at one occurrence of the separator splits each side separately. */
  lemma SplitAppend(a: string, b: string, sep: char)
    ensures Split(a + [sep] + b, sep) == Split(a, sep) + Split(b, sep)
  {
    var p, q := Split(a, sep), Split(b, sep);
    JoinAppend(p, q, [sep]);
    SplitJoin(p + q, sep);
  }

  // --------------------------------------------------------------- decimals

  function DigitChar(d: nat): (c: char)
    requires d < 10
    ensures IsDigit(c)
  {
    ('0' as int + d) as char
  }

  function DigitValue(c: char): (d: nat)
    requires IsDigit(c)
    ensures d < 10 && DigitChar(d) == c
  {
    c as int - '0' as int
  }

  /** The value of a string of decimal digits (most significant first). */
  function DigitsValue(s: string): nat
    requires AllDigits(s)
  {
    if s == [] then 0 else DigitsValue(s[..|s| - 1]) * 10 + DigitValue(s[|s| - 1])
  }

  /** The value of `-?\d+`: what `parseInt(s, 10)` gives on such a string. */
  function SignedValue(s: string): int
    requires IsSignedDigits(s)
  {
    if s[0] == '-' then -(DigitsValue(s[1..]) as int) else DigitsValue(s)
  }

  /** The shortest decimal rendering of a natural number. */
  function NatToDecimal(n: nat): (s: string)
    ensures IsDigits(s)
    ensures s[0] == '0' ==> n == 0
  {
    if n < 10 then [DigitChar(n)] else NatToDecimal(n / 10) + [DigitChar(n % 10)]
  }

  /** What a template literal `${n}` prints for an integer. */
  function IntToDecimal(n: int): (s: string)
    ensures IsSignedDigits(s)
    ensures s[0] == '-' <==> n < 0
    ensures s[if n < 0 then 1 else 0] == '0' ==> n == 0
  {
    if n < 0 then
      var d := NatToDecimal(-n);
      assert ("-" + d)[1..] == d;
      "-" + d
    else NatToDecimal(n)
  }

  lemma {:induction false} NatDecimalRoundTrip(n: nat)
    ensures DigitsValue(NatToDecimal(n)) == n
  {
    if n >= 10 {
      NatDecimalRoundTrip(n / 10);
      var s := NatToDecimal(n);
      assert s[..|s| - 1] == NatToDecimal(n / 10);
    }
  }

  /** A digit string with no superfluous leading zero. */
  predicate IsCanonicalDigits(d: string)
  {
    IsDigits(d) && (d[0] == '0' ==> |d| == 1)
  }

  /** The digit strings `NatToDecimal` prints are exactly the canonical ones. */
  lemma {:induction false} CanonicalNatDecimal(d: string)
    requires IsCanonicalDigits(d)
    ensures NatToDecimal(DigitsValue(d)) == d
    decreases |d|
  {
    var p := d[..|d| - 1];
    if |p| > 0 {
      assert p[0] == d[0];
      CanonicalNatDecimal(p);
      PositiveDigitsValue(p);
      assert d == p + [d[|d| - 1]];
    }
  }

  lemma {:induction false} PositiveDigitsValue(d: string)
    requires IsDigits(d) && d[0] != '0'
    ensures DigitsValue(d) >= 1
    decreases |d|
  {
    if |d| > 1 {
      var p := d[..|d| - 1];
      assert p[0] == d[0];
      PositiveDigitsValue(p);
    }
  }

  /**
   * The strings a template literal prints for integers are exactly the canonical
   * signed decimals: an optional minus sign, then digits without a superfluous
   * leading zero, and no `-0`.
   */
  lemma CanonicalDecimal(s: string)
    requires IsSignedDigits(s)
    ensures IntToDecimal(SignedValue(s)) == s <==>
              if s[0] == '-' then IsCanonicalDigits(s[1..]) && s[1] != '0'
              else IsCanonicalDigits(s)
  {
    if s[0] == '-' {
      var d := s[1..];
      if IsCanonicalDigits(d) && d[0] != '0' {
        CanonicalNatDecimal(d);
        PositiveDigitsValue(d);
        assert s == "-" + d;
      }
      if IntToDecimal(SignedValue(s)) == s {
        assert SignedValue(s) < 0;
        assert IntToDecimal(SignedValue(s))[1..] == NatToDecimal(DigitsValue(d));
      }
    } else {
      if IsCanonicalDigits(s) {
        CanonicalNatDecimal(s);
      }
    }
  }

  /** Reading back a printed integer gives the integer. */
  lemma DecimalRoundTrip(n: int)
    ensures SignedValue(IntToDecimal(n)) == n
  {
    if n < 0 {
      NatDecimalRoundTrip(-n);
      assert IntToDecimal(n)[1..] == NatToDecimal(-n);
    } else {
      NatDecimalRoundTrip(n);
    }
  }

  lemma DecimalHasNoWhitespaceOrHyphen(n: int)
    ensures forall k :: 0 <= k < |IntToDecimal(n)| ==> !IsWhitespace(IntToDecimal(n)[k])
    ensures n >= 0 ==> '-' !in IntToDecimal(n)
    ensures n < 0 ==> '-' !in IntToDecimal(n)[1..]
  {
    var s := IntToDecimal(n);
    if n < 0 {
      assert s == [s[0]] + s[1..];
      assert IsDigits(s[1..]);
    }
  }
}
