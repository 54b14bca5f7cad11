/**
 * The numeric half of StringConversionExtensions: reading editor text as a
 * double (with the ratio fallback for constraint multipliers) and as a size,
 * writing doubles, points, sizes and rectangles back as editor text, and
 * counting the fractional digits of a double.
 *
 * The invariant-culture formatter that writes a non-zero double is library
 * code outside the model; it is the parameter `fmt`.
 */
module ScalarConversion {
  import opened Wrappers
  import opened Errors
  import opened TextPrimitives
  import opened NumberText

  /** double.ToString(invariant culture), supplied by the caller. */
  type Formatter = Double -> string

  /**
   * The formatter's text for `x` stays within the plain number grammar and
   * parses back as `x` (zero is written by ToEditorString itself). This holds
   * value by value: an integer below 10^15 is written as its digits, while a value such as
   * 1/3 has no exact decimal text at all.
   */
  predicate RoundTripsAt(fmt: Formatter, x: real) {
    x != 0.0 ==> ParseNumber(fmt(Finite(x))) == Some(x)
  }

  /**
   * An integer that the formatter writes as its digits round-trips. The
   * invariant formatter does so for integral doubles below 10^15 in magnitude;
   * larger ones it writes in exponent form.
   */
  lemma RoundTripsAtIntegers(fmt: Formatter, n: int)
    requires fmt(Finite(n as real)) == IntText(n)
    ensures RoundTripsAt(fmt, n as real)
  {
    ParseIntText(n);
  }

  /** ToEditorDoubleIfPossible: a probe that never fails; the number is 0 when the parse does. */
  function ToEditorDoubleIfPossible(value: NullableString): (r: (bool, real))
    ensures r.0 <==> value.Some? && ParseNumber(value.value).Some?
    ensures r.0 ==> Some(r.1) == ParseNumber(value.value)
    ensures !r.0 ==> r.1 == 0.0
  {
    match value
    case None => (false, 0.0)
    case Some(s) =>
      match ParseNumber(s)
      case Some(x) => (true, x)
      case None => (false, 0.0)
  }

  /**
   * ToEditorFloatIfPossible: the same probe, its number narrowed to a float
   * (the narrowing is not modelled). When it succeeds, ToEditorDouble reads
   * the same number.
   */
  function ToEditorFloatIfPossible(value: NullableString): (r: (bool, real))
    ensures r.0 <==> value.Some? && ParseNumber(value.value).Some?
    ensures r.0 ==> ToEditorDouble(value) == Ok(Finite(r.1))
    ensures !r.0 ==> r.1 == 0.0
  {
    ToEditorDoubleIfPossible(value)
  }

  /** The pieces a ratio is read from: the ':' pieces when there are two of them, else the '/' pieces. */
  function RatioParts(s: string): (parts: seq<string>)
    ensures Count(s, ':') == 1 ==> parts == Split(s, ':')
    ensures Count(s, ':') != 1 ==> parts == Split(s, '/')
  {
    var parts := Split(s, ':');
    if |parts| != 2 then Split(s, '/') else parts
  }

  /**
   * The ratio read from two pieces: their quotient, or an ArgumentException
   * when either piece does not parse; any other number of pieces is a
   * NotSupportedException.
   */
  function RatioOf(parts: seq<string>): (r: Result<Double, Exception>)
    ensures r.Ok? <==> |parts| == 2 && ParseNumber(parts[0]).Some? && ParseNumber(parts[1]).Some?
    ensures r == Err(NotSupportedException) <==> |parts| != 2
    ensures r.Ok? ==> r.value == Quotient(ParseNumber(parts[0]).value, ParseNumber(parts[1]).value)
    ensures r.Err? && |parts| == 2 ==> r.error == ArgumentException
  {
    if |parts| == 2 then
      match (ParseNumber(parts[0]), ParseNumber(parts[1]))
      case (Some(first), Some(second)) => Ok(Quotient(first, second))
      case _ => Err(ArgumentException)
    else Err(NotSupportedException)
  }

  /**
   * ToEditorDouble: null or empty text is 0; text the number grammar accepts is
   * its value; otherwise the text is read as a ratio "a:b" or "a/b".
   */
  function ToEditorDouble(value: NullableString): (r: Result<Double, Exception>)
    ensures value == None || value == Some("") ==> r == Ok(Finite(0.0))
    ensures value.Some? && ParseNumber(value.value).Some? ==> r == Ok(Finite(ParseNumber(value.value).value))
    ensures r.Err? ==> r.error == ArgumentException || r.error == NotSupportedException
  {
    match value
    case None => Ok(Finite(0.0))
    case Some(s) =>
      if s == [] then Ok(Finite(0.0))
      else
        var (parsed, number) := ToEditorDoubleIfPossible(value);
        if parsed then Ok(Finite(number)) else RatioOf(RatioParts(s))
  }

  /** Non-empty text outside the number grammar is read as a ratio. */
  lemma RatioFallback(s: string)
    requires s != [] && ParseNumber(s) == None
    ensures ToEditorDouble(Some(s)) == RatioOf(RatioParts(s))
  {
  }

  /** ToEditorFloat: ToEditorDouble narrowed to a float (the narrowing is not modelled). */
  function ToEditorFloat(value: NullableString): (r: Result<Double, Exception>)
    ensures value == None || value == Some("") ==> r == Ok(Finite(0.0))
    ensures value.Some? && ParseNumber(value.value).Some? ==> r == Ok(Finite(ParseNumber(value.value).value))
    ensures value.Some? && value.value != [] && ParseNumber(value.value) == None ==>
      r == RatioOf(RatioParts(value.value))
    ensures r.Err? ==> r.error == ArgumentException || r.error == NotSupportedException
  {
    ToEditorDouble(value)
  }

  /** Text holding a ':' or '/' is never a plain number, so it always takes the ratio path. */
  lemma NotPlainNumber(s: string)
    requires ':' in s || '/' in s
    ensures ParseNumber(s) == None
  {
    if ParseNumber(s).Some? {
      ParsedChars(s);
    }
  }

  /**
   * "a:b" with a single ':' is the quotient of its two pieces; a '/' in either
   * piece is not split again, so such a piece makes it an ArgumentException.
   */
  lemma RatioWithColon(a: string, b: string)
    requires ':' !in a && ':' !in b
    ensures ToEditorDouble(Some(a + ":" + b)) ==
      if ParseNumber(a).Some? && ParseNumber(b).Some?
      then Ok(Quotient(ParseNumber(a).value, ParseNumber(b).value))
      else Err(ArgumentException)
  {
    var s := a + ":" + b;
    assert ToEditorDouble(Some(s)) == RatioOf([a, b]) by {
      assert s == a + [':'] + b;
      assert ':' in s by { assert s[|a|] == ':'; }
      NotPlainNumber(s);
      RatioFallback(s);
      assert Split(s, ':') == [a, b] by {
        SplitAt(a, b, ':');
        SplitNone(b, ':');
      }
    }
  }

  /** "a/b" is the quotient of its pieces when the ':' split did not give two pieces. */
  lemma RatioWithSlash(a: string, b: string)
    requires '/' !in a && '/' !in b
    requires Count(a, ':') + Count(b, ':') != 1
    ensures ToEditorDouble(Some(a + "/" + b)) ==
      if ParseNumber(a).Some? && ParseNumber(b).Some?
      then Ok(Quotient(ParseNumber(a).value, ParseNumber(b).value))
      else Err(ArgumentException)
  {
    var s := a + "/" + b;
    assert ToEditorDouble(Some(s)) == RatioOf([a, b]) by {
      assert s == a + ['/'] + b;
      assert '/' in s by { assert s[|a|] == '/'; }
      NotPlainNumber(s);
      RatioFallback(s);
      assert Count(s, ':') != 1 by {
        CountAppend(a, ['/'], ':');
        CountAppend(a + ['/'], b, ':');
        assert Count(['/'], ':') == 0;
      }
      assert Split(s, '/') == [a, b] by {
        SplitAt(a, b, '/');
        SplitNone(b, '/');
      }
    }
  }

  /** The two ratio syntaxes mean the same: "9:5" and "9/5" are both 9 / 5. */
  lemma RatioSyntaxesAgree(a: string, b: string)
    requires ':' !in a && ':' !in b && '/' !in a && '/' !in b
    ensures ToEditorDouble(Some(a + ":" + b)) == ToEditorDouble(Some(a + "/" + b))
  {
    RatioWithColon(a, b);
    RatioWithSlash(a, b);
  }

  /** The two failure shapes, each stated both ways. */
  lemma ToEditorDoubleErrors(s: string)
    ensures ToEditorDouble(Some(s)) == Err(NotSupportedException) <==>
      s != [] && ParseNumber(s) == None && Count(s, ':') != 1 && Count(s, '/') != 1
    ensures ToEditorDouble(Some(s)) == Err(ArgumentException) <==>
      s != [] && ParseNumber(s) == None && (Count(s, ':') == 1 || Count(s, '/') == 1) &&
      (ParseNumber(RatioParts(s)[0]) == None || ParseNumber(RatioParts(s)[1]) == None)
  {
  }

  /** "9" and "5", the pieces of the constraint multipliers below. */
  lemma NineAndFive()
    ensures ParseNumber("9") == Some(9.0) && ParseNumber("5") == Some(5.0)
  {
    assert IntText(9) == "9" && IntText(5) == "5";
    ParseIntText(9);
    ParseIntText(5);
  }

  /** The constraint multiplier of the comment at the ratio fallback: "9:5" is 1.8. */
  lemma ColonMultiplierExample()
    ensures ToEditorDouble(Some("9:5")) == Ok(Finite(1.8))
  {
    var a, b := "9", "5";
    var s := a + ":" + b;
    assert ToEditorDouble(Some(s)) == Ok(Finite(1.8)) by {
      NineAndFive();
      RatioWithColon(a, b);
    }
    assert s == "9:5";
  }

  /** The same multiplier written "9/5" is 1.8 too. */
  lemma SlashMultiplierExample()
    ensures ToEditorDouble(Some("9/5")) == Ok(Finite(1.8))
  {
    var a, b := "9", "5";
    var s := a + "/" + b;
    assert ToEditorDouble(Some(s)) == Ok(Finite(1.8)) by {
      NineAndFive();
      RatioWithSlash(a, b);
    }
    assert s == "9/5";
  }

  /** Three pieces are not a ratio. */
  lemma ThreePiecesNotSupported()
    ensures ToEditorDouble(Some("1:2:3")) == Err(NotSupportedException)
  {
    assert ToEditorDouble(Some("1:2:3")) == Err(NotSupportedException) by {
      var s := "1:2:3";
      assert Count(s, ':') == 2 && Count(s, '/') == 0;
      NotPlainNumber(s);
      RatioFallback(s);
    }
  }

  /** "1:2/3" splits on ':' alone, and its piece "2/3" is no number. */
  lemma SlashInsideColonPiece()
    ensures ToEditorDouble(Some("1:2/3")) == Err(ArgumentException)
  {
    assert ToEditorDouble(Some("1:2/3")) == Err(ArgumentException) by {
      var a, b, s := "1", "2/3", "1:2/3";
      assert s == a + ":" + b;
      assert ParseNumber(b) == None by { NotPlainNumber(b); }
      assert ToEditorDouble(Some(a + ":" + b)) == Err(ArgumentException) by { RatioWithColon(a, b); }
    }
  }

  /** ToEditorString(double) and ToEditorString(float): zero is written "0.0", anything else by the formatter. */
  function ToEditorString(value: Double, fmt: Formatter): (r: string)
    ensures value == Finite(0.0) ==> r == "0.0"
    ensures value != Finite(0.0) ==> r == fmt(value)
  {
    if value == Finite(0.0) then "0.0" else fmt(value)
  }

  /** The editor text of a finite double parses back as that double, "0.0" included. */
  lemma ToEditorStringParses(x: real, fmt: Formatter)
    requires RoundTripsAt(fmt, x)
    ensures ParseNumber(ToEditorString(Finite(x), fmt)) == Some(x)
  {
    if x == 0.0 {
      ParseZeroText();
    }
  }

  /** Editor text round trip: ToEditorDouble reads back what ToEditorString wrote. */
  lemma ToEditorStringRoundTrip(x: real, fmt: Formatter)
    requires RoundTripsAt(fmt, x)
    ensures ToEditorDouble(Some(ToEditorString(Finite(x), fmt))) == Ok(Finite(x))
  {
    ToEditorStringParses(x, fmt);
  }

  /**
   * ToEditorDigitsCount: the length of the formatted value, less the length of
   * its truncated integer part and one for the point, and never below zero.
   */
  function ToEditorDigitsCount(value: real, fmt: Formatter): (r: int)
    ensures r >= 0
    ensures r > 0 <==> |fmt(Finite(value))| - |IntText(Truncate(value))| - 1 > 0
    ensures r > 0 ==> r == |fmt(Finite(value))| - |IntText(Truncate(value))| - 1
  {
    var baseDigits := |IntText(Truncate(value))|;
    var fullDigits := |fmt(Finite(value))|;
    if fullDigits - baseDigits - 1 > 0 then fullDigits - baseDigits - 1 else 0
  }

  function Abs(n: int): nat { if n < 0 then -n else n }

  /**
   * The plain invariant text of `value` with the fractional digits `fraction`:
   * a '-' for a negative value, the digits of its integer part, then '.' and
   * the fraction when there is one.
   */
  function PlainText(value: real, fraction: string): string {
    (if value < 0.0 then "-" else "") + NatText(Abs(Truncate(value))) +
    (if fraction == [] then "" else "." + fraction)
  }

  /**
   * What ToEditorDigitsCount counts on plain text: the fractional digits,
   * except for a negative value above -1, where the truncation to an integer
   * loses the '-' and the count comes out one too high.
   */
  lemma DigitsCountOfPlainText(value: real, fraction: string, fmt: Formatter)
    requires fmt(Finite(value)) == PlainText(value, fraction)
    ensures ToEditorDigitsCount(value, fmt) ==
      if -1.0 < value < 0.0 && fraction != [] then |fraction| + 1 else |fraction|
  {
    var n := Truncate(value);
    if value < 0.0 && n < 0 {
      assert IntText(n) == "-" + NatText(Abs(n));
    }
  }

  /** The off-by-one at work: -0.5 has one fractional digit, and the count is 2. */
  lemma DigitsCountOfMinusHalf(fmt: Formatter)
    requires fmt(Finite(-0.5)) == "-0.5"
    ensures ToEditorDigitsCount(-0.5, fmt) == 2
  {
    assert Truncate(-0.5) == 0;
    assert IntText(0) == "0";
  }

  /** ToEditorDigitsCount as intended: the sign is counted from the value itself, not from its truncation. */
  function FractionDigitsCount(value: real, fmt: Formatter): (r: int)
    ensures r >= 0
  {
    var baseDigits := (if value < 0.0 then 1 else 0) + |NatText(Abs(Truncate(value)))|;
    var fullDigits := |fmt(Finite(value))|;
    if fullDigits - baseDigits - 1 > 0 then fullDigits - baseDigits - 1 else 0
  }

  /** The corrected count is the number of fractional digits for every sign and magnitude. */
  lemma FractionDigitsCountOfPlainText(value: real, fraction: string, fmt: Formatter)
    requires fmt(Finite(value)) == PlainText(value, fraction)
    ensures FractionDigitsCount(value, fmt) == |fraction|
  {
  }
}
