/**
 * The two boolean vocabularies of StringConversionExtensions: the editor's
 * "true"/"false", read back ignoring case, and the storyboard's "YES"/"NO",
 * read back only from the exact text "YES".
 */
module BoolConversion {
  import opened Wrappers
  import opened Errors
  import opened TextPrimitives

  /**
   * String.Equals(a, b, StringComparison.OrdinalIgnoreCase): equal lengths and
   * equal upper-cased characters.
   */
  predicate SameIgnoringCase(a: string, b: string) {
    |a| == |b| && forall i :: 0 <= i < |a| ==> ToUpper(a[i]) == ToUpper(b[i])
  }

  /** ToEditorString(bool): "true" or "false". */
  function BoolToEditorString(value: bool): (r: string)
    ensures r == "true" || r == "false"
    ensures r == "true" <==> value
  {
    if value then "true" else "false"
  }

  /** ToEditorBool: true exactly for "true" in any case; false for everything else, null included. */
  function ToEditorBool(value: NullableString): (r: bool)
    ensures r <==> value.Some? && SameIgnoringCase(value.value, "true")
  {
    match value
    case None => false
    case Some(s) => SameIgnoringCase("true", s)
  }

  /** The characters bool.Parse trims from both ends: white space and U+0000. */
  const WhiteSpaceAndNull: set<char> := WhiteSpace + {'\0'}

  /** The text bool.Parse compares: `s` without white space or U+0000 at either end. */
  function TrimWhiteSpaceAndNull(s: string): (r: string)
    ensures r != [] ==> r[0] !in WhiteSpaceAndNull && r[|r| - 1] !in WhiteSpaceAndNull
  {
    TrimChars(s, WhiteSpaceAndNull)
  }

  /**
   * bool.Parse: "True" or "False" in any case, with white space or U+0000 at
   * either end; null is an ArgumentNullException, any other text a FormatException.
   */
  function ParseBool(value: NullableString): (r: Result<bool, Exception>)
    ensures value == None ==> r == Err(ArgumentNullException)
    ensures r == Ok(true) <==> value.Some? && SameIgnoringCase(TrimWhiteSpaceAndNull(value.value), "True")
    ensures r == Ok(false) <==> value.Some? && SameIgnoringCase(TrimWhiteSpaceAndNull(value.value), "False")
    ensures r.Err? ==> r.error == ArgumentNullException || r.error == FormatException
  {
    match value
    case None => Err(ArgumentNullException)
    case Some(s) =>
      var t := TrimWhiteSpaceAndNull(s);
      if SameIgnoringCase(t, "True") then Ok(true)
      else if SameIgnoringCase(t, "False") then Ok(false)
      else Err(FormatException)
  }

  /** ToStoryboardBool(bool): "YES" or "NO". */
  function ToStoryboardBool(value: bool): (r: string)
    ensures r == "YES" || r == "NO"
    ensures r == "YES" <==> value
  {
    if value then "YES" else "NO"
  }

  /** ToStoryboardBool(string): bool.Parse, whose failures propagate, then the storyboard text. */
  function StoryboardBoolText(value: NullableString): (r: Result<string, Exception>)
    ensures r.Ok? <==> ParseBool(value).Ok?
    ensures r.Ok? ==> r.value == ToStoryboardBool(ParseBool(value).value)
    ensures r.Err? ==> r.error == ParseBool(value).error
  {
    match ParseBool(value)
    case Ok(b) => Ok(ToStoryboardBool(b))
    case Err(e) => Err(e)
  }

  /** FromStoryboardBool: "YES".Equals(value), so null and every other text are false. */
  function FromStoryboardBool(value: NullableString): (r: bool)
    ensures r <==> value == Some("YES")
  {
    value.Some? && value.value == "YES"
  }

  /** ToStoryboardBool(bool?): null stays null; a value is written as its storyboard text. */
  function NullableToStoryboardBool(value: Option<bool>): (r: NullableString)
    ensures r == None <==> value == None
    ensures value.Some? ==> r == Some(ToStoryboardBool(value.value))
    ensures value.Some? ==> FromStoryboardBool(r) == value.value
  {
    match value
    case None => None
    case Some(b) => Some(ToStoryboardBool(b))
  }

  /** The storyboard vocabulary reads back: FromStoryboardBool(ToStoryboardBool(b)) == b. */
  lemma StoryboardRoundTrip(b: bool)
    ensures FromStoryboardBool(Some(ToStoryboardBool(b))) == b
  {
  }

  /** The editor vocabulary reads back: ToEditorBool(ToEditorString(b)) == b. */
  lemma {:induction false} EditorRoundTrip(b: bool)
    ensures ToEditorBool(Some(BoolToEditorString(b))) == b
  {
    if !b {
      assert ToUpper(BoolToEditorString(b)[0]) != ToUpper("true"[0]);
    }
  }

  /** Only the exact text "YES" is true in the storyboard: case matters and nothing is trimmed. */
  lemma FromStoryboardBoolExact(value: NullableString)
    requires value != Some("YES")
    ensures !FromStoryboardBool(value)
  {
  }

  /** The editor reads "true" in any case. */
  lemma {:induction false} ToEditorBoolIgnoresCase()
    ensures ToEditorBool(Some("TRUE")) && ToEditorBool(Some("True"))
  {
    var t := "true";
    assert SameIgnoringCase("TRUE", t);
    assert SameIgnoringCase("True", t);
  }

  /** ToEditorBool is false for text of any length other than four, null included. */
  lemma ToEditorBoolOtherLengths(value: NullableString)
    requires value == None || |value.value| != 4
    ensures !ToEditorBool(value)
  {
  }

  /** The two vocabularies do not overlap: each reader refuses the other's words. */
  lemma {:induction false} VocabulariesDisjoint(b: bool)
    ensures !ToEditorBool(Some(ToStoryboardBool(b)))
    ensures !FromStoryboardBool(Some(BoolToEditorString(b)))
  {
    if b {
      assert ToUpper(ToStoryboardBool(b)[0]) != ToUpper("true"[0]);
    }
  }

  /** bool.Parse reads "true" as true. */
  lemma TrueTextParses()
    ensures ParseBool(Some("true")) == Ok(true)
  {
    var s, word := "true", "True";
    TrimCharsKeeps(s, WhiteSpaceAndNull);
    assert SameIgnoringCase(s, word) by {
      assert ToUpper(s[0]) == ToUpper(word[0]);
    }
  }

  /** bool.Parse reads "false" as false. */
  lemma FalseTextParses()
    ensures ParseBool(Some("false")) == Ok(false)
  {
    var s, word := "false", "False";
    TrimCharsKeeps(s, WhiteSpaceAndNull);
    assert SameIgnoringCase(s, word) by {
      assert ToUpper(s[0]) == ToUpper(word[0]);
    }
    assert !SameIgnoringCase(s, "True");
  }

  /** bool.Parse reads the editor's text. */
  lemma EditorTextParses(b: bool)
    ensures ParseBool(Some(BoolToEditorString(b))) == Ok(b)
  {
    if b {
      TrueTextParses();
    } else {
      FalseTextParses();
    }
  }

  /** So ToStoryboardBool(string) converts editor text to storyboard text. */
  lemma EditorTextToStoryboard(b: bool)
    ensures StoryboardBoolText(Some(BoolToEditorString(b))) == Ok(ToStoryboardBool(b))
  {
    EditorTextParses(b);
  }

  /** ToStoryboardBool(string) refuses its own output: bool.Parse knows no "YES" or "NO". */
  lemma {:induction false} StoryboardTextNotParsed(b: bool)
    ensures StoryboardBoolText(Some(ToStoryboardBool(b))) == Err(FormatException)
  {
    var s := ToStoryboardBool(b);
    TrimCharsKeeps(s, WhiteSpaceAndNull);
    assert !SameIgnoringCase(s, "True") by {
      if b {
        assert ToUpper(s[0]) != ToUpper("True"[0]);
      }
    }
    assert !SameIgnoringCase(s, "False") by {
      if b {
        assert ToUpper(s[0]) != ToUpper("False"[0]);
      }
    }
  }
}
