/**
 * The identifier helpers of StringConversionExtensions: camel and Pascal case
 * (which touch only the first character) and ToHumanString, which spells a
 * camel- or Pascal-cased name as words separated by spaces.
 */
module IdentifierCase {
  import opened Wrappers
  import opened TextPrimitives

  /** ToCamelCase: null and empty text come back as they are; otherwise the first character is lower-cased. */
  function ToCamelCase(value: NullableString): (r: NullableString)
    ensures value == None || value == Some("") ==> r == value
    ensures value.Some? && value.value != [] ==>
      r.Some? && |r.value| == |value.value| &&
      r.value[0] == ToLower(value.value[0]) && !IsUpper(r.value[0]) &&
      forall k :: 1 <= k < |r.value| ==> r.value[k] == value.value[k]
  {
    match value
    case None => value
    case Some(s) => if s == [] then value else Some([ToLower(s[0])] + s[1..])
  }

  /** ToPascalCase: null and empty text come back as they are; otherwise the first character is upper-cased. */
  function ToPascalCase(value: NullableString): (r: NullableString)
    ensures value == None || value == Some("") ==> r == value
    ensures value.Some? && value.value != [] ==>
      r.Some? && |r.value| == |value.value| &&
      r.value[0] == ToUpper(value.value[0]) && !IsLower(r.value[0]) &&
      forall k :: 1 <= k < |r.value| ==> r.value[k] == value.value[k]
  {
    match value
    case None => value
    case Some(s) => if s == [] then value else Some([ToUpper(s[0])] + s[1..])
  }

  /** Camel-casing twice is camel-casing once. */
  lemma CamelCaseIdempotent(value: NullableString)
    ensures ToCamelCase(ToCamelCase(value)) == ToCamelCase(value)
  {
    if value.Some? && value.value != [] {
      var once := ToCamelCase(value).value;
      assert [ToLower(once[0])] + once[1..] == once;
    }
  }

  /** Pascal-casing twice is Pascal-casing once. */
  lemma PascalCaseIdempotent(value: NullableString)
    ensures ToPascalCase(ToPascalCase(value)) == ToPascalCase(value)
  {
    if value.Some? && value.value != [] {
      var once := ToPascalCase(value).value;
      assert [ToUpper(once[0])] + once[1..] == once;
    }
  }

  /** The two are each other's inverse up to the case of the first character: the last one applied wins. */
  lemma CaseConversionsUndo(value: NullableString)
    ensures ToPascalCase(ToCamelCase(value)) == ToPascalCase(value)
    ensures ToCamelCase(ToPascalCase(value)) == ToCamelCase(value)
  {
    if value.Some? && value.value != [] {
      var s := value.value;
      UpperOfLower(s[0]);
      assert ToCamelCase(value).value[1..] == s[1..];
      assert ToPascalCase(value).value[1..] == s[1..];
    }
  }

  /** A storyboard name in camel case comes back unchanged from a round trip through Pascal case. */
  lemma CamelRoundTrip(value: NullableString)
    requires value.Some? && value.value != [] ==> !IsUpper(value.value[0])
    ensures ToCamelCase(ToPascalCase(value)) == value
  {
    if value.Some? && value.value != [] {
      var s := value.value;
      UpperOfLower(s[0]);
      assert [ToLower(s[0])] + s[1..] == s;
    }
  }

  /**
   * Whether ToHumanString puts a space before position `i`: the character there
   * is an upper-case letter, it is not the last one, and its two neighbours are
   * not both upper case.
   */
  predicate SpaceBefore(str: string, i: nat)
    requires 1 <= i < |str|
  {
    IsUpper(str[i]) && i < |str| - 1 && (!IsUpper(str[i - 1]) || !IsUpper(str[i + 1]))
  }

  /** The text ToHumanString has built once it has taken the first `k` characters of `str`. */
  function Spaced(str: string, k: nat): (sb: string)
    requires 1 <= k <= |str|
    ensures |sb| >= k
  {
    if k == 1 then [ToUpper(str[0])]
    else Spaced(str, k - 1) + Gap(str, k - 1) + [str[k - 1]]
  }

  /** The space inserted before position `i`, if any. */
  function Gap(str: string, i: nat): string
    requires 1 <= i < |str|
  {
    if SpaceBefore(str, i) then [' '] else []
  }

  /** The built text starts with the upper-cased first character and ends with the last one taken. */
  lemma {:induction false} SpacedEnds(str: string, k: nat)
    requires 1 <= k <= |str|
    ensures Spaced(str, k)[0] == ToUpper(str[0])
    ensures Spaced(str, k)[|Spaced(str, k)| - 1] == (if k == 1 then ToUpper(str[0]) else str[k - 1])
  {
    if k > 1 {
      SpacedEnds(str, k - 1);
    }
  }

  /** The text has no white space in it. */
  predicate NoWhiteSpace(str: string) {
    forall k :: 0 <= k < |str| ==> !IsWhiteSpace(str[k])
  }

  /**
   * ToHumanString: the first character upper-cased, then every later
   * character, with a space in front of it where SpaceBefore says so; the
   * built text is trimmed at the end.
   */
  method ToHumanString(str: string) returns (r: string)
    requires str != []
    ensures r == Trim(Spaced(str, |str|))
    ensures NoWhiteSpace(str) ==> r == Spaced(str, |str|)
    ensures NoWhiteSpace(str) ==> RemoveSpaces(r) == [ToUpper(str[0])] + str[1..]
  {
    var sb := [ToUpper(str[0])];
    for i := 1 to |str|
      invariant sb == Spaced(str, i)
    {
      var chr := str[i];
      if IsUpper(chr) && i < |str| - 1 && (!IsUpper(str[i - 1]) || !IsUpper(str[i + 1])) {
        sb := sb + " ";
      }
      sb := sb + [chr];
    }
    r := Trim(sb);
    if NoWhiteSpace(str) {
      SpacedKeepsEnds(str);
      RemoveSpacesSpaced(str, |str|);
    }
  }

  /** With no white space in the input, the built text has none at its ends, so the final Trim keeps it whole. */
  lemma SpacedKeepsEnds(str: string)
    requires str != [] && NoWhiteSpace(str)
    ensures Trim(Spaced(str, |str|)) == Spaced(str, |str|)
  {
    var sb := Spaced(str, |str|);
    SpacedEnds(str, |str|);
    UpperKeepsNonWhiteSpace(str[0]);
    assert !IsWhiteSpace(str[|str| - 1]);
    TrimKeeps(sb);
  }

  /** Upper-casing a character that is not white space gives one that is not either. */
  lemma UpperKeepsNonWhiteSpace(c: char)
    requires !IsWhiteSpace(c)
    ensures !IsWhiteSpace(ToUpper(c))
  {
    if IsLower(c) {
      assert IsUpper(ToUpper(c));
    }
  }

  /** Deleting the spaces ToHumanString inserted gives back the input with its first character upper-cased. */
  lemma {:induction false} RemoveSpacesSpaced(str: string, k: nat)
    requires 1 <= k <= |str| && ' ' !in str
    ensures RemoveSpaces(Spaced(str, k)) == [ToUpper(str[0])] + str[1..k]
  {
    var first := ToUpper(str[0]);
    if k == 1 {
      calc {
        RemoveSpaces(Spaced(str, 1));
        RemoveSpaces([first]);
        { assert str[0] in str; RemoveSpacesChar(first); }
        [first];
        { assert str[1..1] == []; }
        [first] + str[1..1];
      }
    } else {
      calc {
        RemoveSpaces(Spaced(str, k));
        { RemoveSpacesStep(str, k); }
        RemoveSpaces(Spaced(str, k - 1)) + [str[k - 1]];
        { RemoveSpacesSpaced(str, k - 1); }
        [first] + str[1..k - 1] + [str[k - 1]];
        { assert str[1..k] == str[1..k - 1] + [str[k - 1]]; }
        [first] + str[1..k];
      }
    }
  }

  /** One step of the loop adds, spaces aside, just the character taken. */
  lemma RemoveSpacesStep(str: string, k: nat)
    requires 2 <= k <= |str| && ' ' !in str
    ensures RemoveSpaces(Spaced(str, k)) == RemoveSpaces(Spaced(str, k - 1)) + [str[k - 1]]
  {
    var before, gap, last := Spaced(str, k - 1), Gap(str, k - 1), [str[k - 1]];
    assert RemoveSpaces(gap) == [] by {
      if gap != [] {
        RemoveSpacesChar(' ');
      }
    }
    assert RemoveSpaces(last) == last by {
      assert str[k - 1] in str;
      RemoveSpacesChar(str[k - 1]);
    }
    calc {
      RemoveSpaces(Spaced(str, k));
      RemoveSpaces(before + gap + last);
      { RemoveSpacesAppend(before + gap, last); }
      RemoveSpaces(before + gap) + RemoveSpaces(last);
      { RemoveSpacesAppend(before, gap); }
      RemoveSpaces(before) + RemoveSpaces(gap) + RemoveSpaces(last);
      RemoveSpaces(before) + last;
    }
  }

  /** What is built for the first `i` characters stays at the front of the final text. */
  lemma {:induction false} SpacedPrefix(str: string, i: nat, n: nat)
    requires 1 <= i <= n <= |str|
    ensures Spaced(str, i) <= Spaced(str, n)
    decreases n
  {
    if i < n {
      SpacedPrefix(str, i, n - 1);
    }
  }

  /** One step of the loop: the character taken lands right after the text built so far, or after a space. */
  lemma {:induction false} SpacedStep(str: string, i: nat)
    requires 1 <= i < |str|
    ensures |Spaced(str, i)| < |Spaced(str, i + 1)|
    ensures Spaced(str, i + 1)[|Spaced(str, i)|] == if SpaceBefore(str, i) then ' ' else str[i]
  {
    var before, after := Spaced(str, i), Spaced(str, i + 1);
    if SpaceBefore(str, i) {
      assert after == before + [' '] + [str[i]];
    } else {
      assert after == before + [str[i]];
    }
  }

  /**
   * A space stands between the text built for the first `i` characters and
   * `str[i]` exactly when SpaceBefore(str, i) holds.
   */
  lemma {:induction false} SpaceMarks(str: string, i: nat)
    requires 1 <= i < |str| && str[i] != ' '
    ensures |Spaced(str, i)| < |Spaced(str, |str|)|
    ensures Spaced(str, |str|)[|Spaced(str, i)|] == ' ' <==> SpaceBefore(str, i)
  {
    SpacedStep(str, i);
    SpacedPrefix(str, i + 1, |str|);
    PrefixIndex(Spaced(str, i + 1), Spaced(str, |str|), |Spaced(str, i)|);
  }

  /** A prefix agrees with the whole text at each of its positions. */
  lemma PrefixIndex(a: string, b: string, j: nat)
    requires a <= b && j < |a|
    ensures j < |b| && b[j] == a[j]
  {
  }

  /** The last character is never preceded by an inserted space: it directly follows the one before it. */
  lemma LastCharacterJoined(str: string)
    requires |str| >= 2
    ensures var sb := Spaced(str, |str|);
      sb[|sb| - 1] == str[|str| - 1] &&
      sb[|sb| - 2] == (if |str| == 2 then ToUpper(str[0]) else str[|str| - 2])
  {
    var n := |str|;
    var before, sb := Spaced(str, n - 1), Spaced(str, n);
    SpacedEnds(str, n - 1);
    assert Gap(str, n - 1) == [] by {
      assert !SpaceBefore(str, n - 1);
    }
    assert sb == before + [str[n - 1]];
    assert sb[|sb| - 2] == before[|before| - 1];
  }

  /** A Pascal-cased name is split into its words. */
  lemma TwoWordsExample()
    ensures Trim(Spaced("IsOn", 4)) == "Is On"
  {
    var str := "IsOn";
    assert Spaced(str, 2) == "Is";
    assert Spaced(str, 4) == "Is On" by {
      assert SpaceBefore(str, 2);
    }
    assert NoWhiteSpace(str);
    SpacedKeepsEnds(str);
  }

  /** An acronym stays together; the space goes before the upper-case letter that starts the next word. */
  lemma AcronymExample()
    ensures Trim(Spaced("IOPort", 6)) == "IO Port"
  {
    var str := "IOPort";
    assert Spaced(str, 2) == "IO" by {
      assert !SpaceBefore(str, 1);
    }
    assert Spaced(str, 6) == "IO Port" by {
      assert SpaceBefore(str, 2);
    }
    assert NoWhiteSpace(str);
    SpacedKeepsEnds(str);
  }
}
