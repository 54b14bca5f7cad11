/**
 * Invariant-culture number text: the plain decimal grammar accepted by
 * double.TryParse and double.Parse, the integer grammar of int.Parse, the
 * decimal text int.ToString() produces, and IEEE division as far as the
 * ratio conversion needs it.
 */
module NumberText {
  import opened Wrappers
  import opened Errors
  import opened TextPrimitives

  predicate IsDigit(c: char) { '0' <= c <= '9' }

  predicate AllDigits(s: string) {
    forall i :: 0 <= i < |s| ==> IsDigit(s[i])
  }

  function DigitValue(c: char): (d: nat)
    requires IsDigit(c)
    ensures d < 10
  {
    c as int - '0' as int
  }

  function Digit(d: nat): (c: char)
    requires d < 10
    ensures IsDigit(c) && DigitValue(c) == d
  {
    ('0' as int + d) as char
  }

  /** The value of a run of decimal digits, most significant first. */
  function DigitsValue(s: string): nat
    requires AllDigits(s)
  {
    if s == [] then 0 else DigitsValue(s[..|s| - 1]) * 10 + DigitValue(s[|s| - 1])
  }

  function Pow10(n: nat): (p: nat)
    ensures p >= 1
  {
    if n == 0 then 1 else 10 * Pow10(n - 1)
  }

  /** The value of the digits after the point: `fraction` read as a numerator over a power of ten. */
  function FractionValue(fraction: string): (v: real)
    requires AllDigits(fraction)
    ensures 0.0 <= v < 1.0
  {
    DigitsBelowPow10(fraction);
    ProperFraction(DigitsValue(fraction) as real, Pow10(|fraction|) as real);
    DigitsValue(fraction) as real / Pow10(|fraction|) as real
  }

  lemma ProperFraction(d: real, p: real)
    requires 0.0 <= d < p
    ensures 0.0 <= d / p < 1.0
  {
    assert (d / p) * p == d;
  }

  /** n digits are worth less than 10^n. */
  lemma {:induction false} DigitsBelowPow10(s: string)
    requires AllDigits(s)
    ensures DigitsValue(s) < Pow10(|s|)
  {
    if s != [] {
      var init := s[..|s| - 1];
      DigitsBelowPow10(init);
      assert |init| == |s| - 1;
    }
  }

  /** Decimal digits of a non-negative value, without leading zeros; reads back as the value. */
  function NatText(n: nat): (s: string)
    ensures s != [] && AllDigits(s)
    ensures DigitsValue(s) == n
    ensures |s| > 1 ==> s[0] != '0'
  {
    if n < 10 then [Digit(n)]
    else
      var s := NatText(n / 10) + [Digit(n % 10)];
      assert s[..|s| - 1] == NatText(n / 10);
      s
  }

  /** int.ToString() in the invariant culture: a '-' for negative values, then the digits. */
  function IntText(n: int): (s: string)
    ensures s != [] && !IsWhiteSpace(s[0]) && !IsWhiteSpace(s[|s| - 1])
    ensures '.' !in s
    ensures n >= 0 ==> s == NatText(n)
    ensures n < 0 ==> s == "-" + NatText(-n)
  {
    if n < 0 then "-" + NatText(-n) else NatText(n)
  }

  /** Position of the first occurrence of `c`. */
  function FirstIndex(s: string, c: char): (i: nat)
    requires c in s
    ensures i < |s| && s[i] == c && c !in s[..i]
  {
    if s[0] == c then 0
    else
      var i := 1 + FirstIndex(s[1..], c);
      assert s[..i] == [s[0]] + s[1..][..i - 1];
      i
  }

  /**
   * The unsigned body of an invariant-culture number: decimal digits with at
   * most one '.', and at least one digit in all ("5." and ".5" are numbers).
   */
  function ParseUnsigned(t: string): (r: Option<real>)
    ensures r.Some? ==> r.value >= 0.0
  {
    if '.' in t then
      var i := FirstIndex(t, '.');
      var whole, fraction := t[..i], t[i + 1..];
      if AllDigits(whole) && AllDigits(fraction) && |whole| + |fraction| > 0
      then Some(DigitsValue(whole) as real + FractionValue(fraction))
      else None
    else if t != [] && AllDigits(t) then Some(DigitsValue(t) as real)
    else None
  }

  /**
   * double.TryParse(text, NumberStyles.Any, invariant culture), restricted to
   * plain decimal notation: white space at either end, an optional leading
   * sign, then an unsigned decimal. `None` is a failed parse.
   */
  function ParseNumber(s: string): (r: Option<real>)
    ensures r.Some? ==> Trim(s) != []
    ensures r.Some? && Trim(s)[0] == '-' ==> r.value <= 0.0
    ensures r.Some? && Trim(s)[0] != '-' ==> r.value >= 0.0
  {
    ParseSigned(Trim(s))
  }

  /** An optional leading sign, then an unsigned decimal. */
  function ParseSigned(t: string): (r: Option<real>)
    ensures r.Some? && t != [] && t[0] == '-' ==> r.value <= 0.0
    ensures r.Some? && (t == [] || t[0] != '-') ==> r.value >= 0.0
  {
    if t != [] && t[0] == '-' then
      match ParseUnsigned(t[1..])
      case Some(x) => Some(-x)
      case None => None
    else if t != [] && t[0] == '+' then ParseUnsigned(t[1..])
    else ParseUnsigned(t)
  }

  /** The characters the plain number grammar is made of. */
  predicate NumberChar(c: char) {
    IsWhiteSpace(c) || IsDigit(c) || c == '.' || c == '+' || c == '-'
  }

  lemma UnsignedChars(t: string)
    requires ParseUnsigned(t).Some?
    ensures forall k :: 0 <= k < |t| ==> IsDigit(t[k]) || t[k] == '.'
  {
    if '.' in t {
      var i := FirstIndex(t, '.');
      forall k | 0 <= k < |t| ensures IsDigit(t[k]) || t[k] == '.' {
        if k < i {
          assert t[k] == t[..i][k];
        } else if k > i {
          assert t[k] == t[i + 1..][k - i - 1];
        }
      }
    }
  }

  /**
   * Text that parses as a number holds nothing but white space, digits, signs
   * and '.': in particular no ':', '/' or ','.
   */
  lemma ParsedChars(s: string)
    requires ParseNumber(s).Some?
    ensures forall k :: 0 <= k < |s| ==> NumberChar(s[k])
    ensures ':' !in s && '/' !in s && ',' !in s
  {
    var t := Trim(s);
    var body := if t != [] && (t[0] == '-' || t[0] == '+') then t[1..] else t;
    UnsignedChars(body);
    assert forall k :: 0 <= k < |t| ==> NumberChar(t[k]) by {
      forall k | 0 <= k < |t| ensures NumberChar(t[k]) {
        if body != t && k > 0 {
          assert t[k] == body[k - 1];
        }
      }
    }
    forall k | 0 <= k < |s| ensures NumberChar(s[k]) {
      TrimCovers(s, k);
    }
  }

  /** Parsing ignores white space around the number. */
  lemma ParseTrimmed(s: string)
    ensures ParseNumber(Trim(s)) == ParseNumber(s)
  {
    TrimIdempotent(s);
    assert Trim(Trim(s)) == Trim(s);
  }

  /** The text of an integer parses back as that integer. */
  lemma {:induction false} ParseIntText(n: int)
    ensures ParseNumber(IntText(n)) == Some(n as real)
  {
    var s := IntText(n);
    TrimKeeps(s);
    var digits := NatText(if n < 0 then -n else n);
    if n < 0 {
      assert s[1..] == digits;
    }
    assert '.' !in digits;
  }

  /** The editor's zero text "0.0" is the number zero. */
  lemma ParseZeroText()
    ensures ParseNumber("0.0") == Some(0.0)
  {
    var t, zero := "0.0", "0";
    TrimKeeps(t);
    assert FirstIndex(t, '.') == 1 by {
      assert t[0] == '0' && t[1] == '.';
    }
    assert t[..1] == zero && t[2..] == zero;
    assert DigitsValue(zero) == 0 by {
      assert zero[..0] == [];
    }
    assert FractionValue(zero) == 0.0;
    assert ParseSigned(t) == ParseUnsigned(t);
  }

  const MinInt32: int := -0x8000_0000
  const MaxInt32: int := 0x7FFF_FFFF

  /**
   * int.Parse(text) with NumberStyles.Integer: white space at either end, an
   * optional leading sign, then at least one decimal digit; a value outside
   * the 32-bit range overflows.
   */
  function ParseInt32(s: string): (r: Result<int, Exception>)
    ensures r.Ok? ==> MinInt32 <= r.value <= MaxInt32
    ensures r.Ok? ==> ParseNumber(s) == Some(r.value as real)
    ensures r.Err? ==> r.error == FormatException || r.error == OverflowException
  {
    var t := Trim(s);
    var signed := t != [] && (t[0] == '-' || t[0] == '+');
    var digits := if signed then t[1..] else t;
    if digits == [] || !AllDigits(digits) then Err(FormatException)
    else
      assert '.' !in digits;
      var n := if signed && t[0] == '-' then -(DigitsValue(digits) as int) else DigitsValue(digits) as int;
      if n < MinInt32 || MaxInt32 < n then Err(OverflowException) else Ok(n)
  }

  /** int.Parse reads back what int.ToString wrote. */
  lemma {:induction false} ParseInt32IntText(n: int)
    requires MinInt32 <= n <= MaxInt32
    ensures ParseInt32(IntText(n)) == Ok(n)
  {
    var s := IntText(n);
    TrimKeeps(s);
    if n < 0 {
      assert s[1..] == NatText(-n);
    }
  }

  /** A double: a finite value, or one of the results of dividing by zero. */
  datatype Double = Finite(value: real) | PositiveInfinity | NegativeInfinity | NaN

  /** IEEE division: x / 0 is an infinity with the sign of x, and 0 / 0 is NaN. */
  function Quotient(x: real, y: real): (q: Double)
    ensures y != 0.0 ==> q.Finite? && q.value * y == x
    ensures y == 0.0 ==> !q.Finite? && (q == NaN <==> x == 0.0)
  {
    if y != 0.0 then Finite(x / y)
    else if x > 0.0 then PositiveInfinity
    else if x < 0.0 then NegativeInfinity
    else NaN
  }

  /** (int)Math.Truncate(x): the integer part, rounded toward zero. */
  function Truncate(x: real): (n: int)
    ensures 0.0 <= x ==> 0 <= n && n as real <= x < n as real + 1.0
    ensures x < 0.0 ==> n <= 0 && n as real - 1.0 < x <= n as real
  {
    if x >= 0.0 then x.Floor else -((-x).Floor)
  }
}
