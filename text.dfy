/**
 * The pieces of the .NET string and char API that the conversions rely on:
 * white space, ASCII case mapping, String.Trim and String.Split.
 */
module TextPrimitives {

  /** The ASCII characters char.IsWhiteSpace accepts: U+0009 to U+000D and the space. */
  const WhiteSpace: set<char> := {'\t', '\n', '\U{000B}', '\U{000C}', '\r', ' '}

  predicate IsWhiteSpace(c: char) {
    c in WhiteSpace
  }

  predicate IsUpper(c: char) { 'A' <= c <= 'Z' }

  predicate IsLower(c: char) { 'a' <= c <= 'z' }

  /** char.ToUpperInvariant on ASCII letters; every other character is its own upper case. */
  function ToUpper(c: char): (u: char)
    ensures !IsLower(u)
    ensures IsLower(c) ==> IsUpper(u) && u as int == c as int - 32
    ensures !IsLower(c) ==> u == c
  {
    if IsLower(c) then (c as int - 32) as char else c
  }

  /** char.ToLowerInvariant on ASCII letters; every other character is its own lower case. */
  function ToLower(c: char): (l: char)
    ensures !IsUpper(l)
    ensures IsUpper(c) ==> IsLower(l) && l as int == c as int + 32
    ensures !IsUpper(c) ==> l == c
  {
    if IsUpper(c) then (c as int + 32) as char else c
  }

  lemma UpperOfLower(c: char)
    ensures ToUpper(ToLower(c)) == ToUpper(c)
    ensures ToLower(ToUpper(c)) == ToLower(c)
  {
  }

  /** Number of occurrences of `c` in `s`. */
  function Count(s: string, c: char): (n: nat)
    ensures n == 0 <==> c !in s
    ensures n <= |s|
  {
    if s == [] then 0 else (if s[0] == c then 1 else 0) + Count(s[1..], c)
  }

  lemma {:induction false} CountAppend(a: string, b: string, c: char)
    ensures Count(a + b, c) == Count(a, c) + Count(b, c)
  {
    if a != [] {
      assert (a + b)[1..] == a[1..] + b;
      CountAppend(a[1..], b, c);
    } else {
      assert a + b == b;
    }
  }

  /** The number of characters from `chars` at the start of `s`. */
  function LeadingCount(s: string, chars: set<char>): (n: nat)
    ensures n <= |s|
    ensures forall k :: 0 <= k < n ==> s[k] in chars
    ensures n < |s| ==> s[n] !in chars
  {
    if s != [] && s[0] in chars then 1 + LeadingCount(s[1..], chars) else 0
  }

  /** The number of characters from `chars` at the end of `s`. */
  function TrailingCount(s: string, chars: set<char>): (n: nat)
    ensures n <= |s|
    ensures forall k :: |s| - n <= k < |s| ==> s[k] in chars
    ensures n < |s| ==> s[|s| - n - 1] !in chars
  {
    if s != [] && s[|s| - 1] in chars then 1 + TrailingCount(s[..|s| - 1], chars) else 0
  }

  /** String.Trim(chars): drops the characters from `chars` at both ends. */
  function TrimChars(s: string, chars: set<char>): (r: string)
    ensures r != [] ==> r[0] !in chars && r[|r| - 1] !in chars
  {
    var rest := s[LeadingCount(s, chars)..];
    rest[..|rest| - TrailingCount(rest, chars)]
  }

  /** String.Trim(): drops the white space at both ends. */
  function Trim(s: string): (r: string)
    ensures r != [] ==> !IsWhiteSpace(r[0]) && !IsWhiteSpace(r[|r| - 1])
  {
    TrimChars(s, WhiteSpace)
  }

  /** Every character of `s` is one of `chars` or a character of the trimmed text. */
  lemma TrimCharsCovers(s: string, chars: set<char>, k: nat)
    requires k < |s|
    ensures s[k] in chars || s[k] in TrimChars(s, chars)
  {
    var lead := LeadingCount(s, chars);
    var rest := s[lead..];
    var r := TrimChars(s, chars);
    if s[k] !in chars {
      assert lead <= k;
      assert k - lead < |r| by {
        assert rest[k - lead] == s[k];
      }
      assert r[k - lead] == s[k];
    }
  }

  /** Every character of `s` is white space or a character of `Trim(s)`. */
  lemma TrimCovers(s: string, k: nat)
    requires k < |s|
    ensures IsWhiteSpace(s[k]) || s[k] in Trim(s)
  {
    TrimCharsCovers(s, WhiteSpace, k);
  }

  /** Trimming text whose ends are not among `chars` changes nothing. */
  lemma TrimCharsKeeps(s: string, chars: set<char>)
    requires s != [] ==> s[0] !in chars && s[|s| - 1] !in chars
    ensures TrimChars(s, chars) == s
  {
  }

  /** Trimming text whose ends are not white space changes nothing. */
  lemma TrimKeeps(s: string)
    requires s != [] ==> !IsWhiteSpace(s[0]) && !IsWhiteSpace(s[|s| - 1])
    ensures Trim(s) == s
  {
    TrimCharsKeeps(s, WhiteSpace);
  }

  lemma TrimIdempotent(s: string)
    ensures Trim(Trim(s)) == Trim(s)
  {
    TrimKeeps(Trim(s));
  }

  /** Leading white space does not reach the result of Trim. */
  lemma TrimSkipsLeading(w: char, s: string)
    requires IsWhiteSpace(w)
    ensures Trim([w] + s) == Trim(s)
  {
    var ws := [w] + s;
    assert ws[1..] == s;
    assert LeadingCount(ws, WhiteSpace) == 1 + LeadingCount(s, WhiteSpace);
    assert ws[LeadingCount(ws, WhiteSpace)..] == s[LeadingCount(s, WhiteSpace)..];
  }

  /**
   * String.Split(sep): the pieces between separators, empty pieces included,
   * so there is always one piece more than there are separators.
   */
  function Split(s: string, sep: char): (parts: seq<string>)
    ensures |parts| == Count(s, sep) + 1
  {
    if s == [] then [[]]
    else
      var rest := Split(s[1..], sep);
      if s[0] == sep then [[]] + rest else [[s[0]] + rest[0]] + rest[1..]
  }

  /** No piece holds the separator. */
  lemma {:induction false} SplitPieces(s: string, sep: char)
    ensures forall p :: p in Split(s, sep) ==> sep !in p
  {
    if s != [] {
      SplitPieces(s[1..], sep);
    }
  }

  /** Text with no separator is a single piece. */
  lemma {:induction false} SplitNone(s: string, sep: char)
    requires sep !in s
    ensures Split(s, sep) == [s]
  {
    if s != [] {
      SplitNone(s[1..], sep);
      assert s[0] != sep;
      assert [s[0]] + s[1..] == s;
    }
  }

  /** The text before the first separator is the first piece, and the rest is split on its own. */
  lemma {:induction false} SplitAt(a: string, b: string, sep: char)
    requires sep !in a
    ensures Split(a + [sep] + b, sep) == [a] + Split(b, sep)
  {
    var s := a + [sep] + b;
    if a == [] {
      assert s[1..] == b;
    } else {
      var rest := Split(s[1..], sep);
      assert s[1..] == a[1..] + [sep] + b;
      SplitAt(a[1..], b, sep);
      assert rest[0] == a[1..] && rest[1..] == Split(b, sep);
      assert [s[0]] + a[1..] == a;
    }
  }

  /** Removes every space character. */
  function RemoveSpaces(s: string): (r: string)
    ensures ' ' !in r
    ensures |r| <= |s|
  {
    if s == [] then [] else (if s[0] == ' ' then [] else [s[0]]) + RemoveSpaces(s[1..])
  }

  /** A single character is kept unless it is a space. */
  lemma RemoveSpacesChar(c: char)
    ensures RemoveSpaces([c]) == if c == ' ' then [] else [c]
  {
    assert [c][1..] == [];
  }

  lemma {:induction false} RemoveSpacesAppend(a: string, b: string)
    ensures RemoveSpaces(a + b) == RemoveSpaces(a) + RemoveSpaces(b)
  {
    if a != [] {
      assert (a + b)[1..] == a[1..] + b;
      RemoveSpacesAppend(a[1..], b);
    } else {
      assert a + b == b;
    }
  }
}
