# StringConversionExtensions in Dafny

This project models `StringConversionExtensions`, the static helper class of
Xamarin.PropertyEditing. The property editor uses it to turn property values
into text and back again. It covers:

- **Numbers.** `ToEditorDouble` reads a number. It falls back to a ratio `a:b`
  or `a/b` for constraint multipliers. `ToEditorString` writes a number, and
  writes zero as `"0.0"`. `ToEditorDigitsCount` counts fractional digits.
- **Compound values.** Points, sizes and rectangles are written as their fields
  joined by `", "`. `ToEditorSize` reads a size back from such text.
- **Two boolean vocabularies.** The editor uses `true`/`false`, read back
  ignoring case. Storyboards use `YES`/`NO`, read back only from the exact text
  `YES`.
- **Identifier helpers.** `ToCamelCase` and `ToPascalCase` change only the
  first character. `ToHumanString` spells a camel- or Pascal-cased name as
  words.
- **Versions.** `ToVersion` accepts a bare build number such as `3035`, as
  well as a dotted version.

Conventions:

- A C# `string` that may be `null` is an `Option<string>`, where `None` is `null`.
- A thrown exception is the `Err` side of a `Result`, carrying one of the .NET
  exception kinds in `Errors.Exception`.
- A `double` is `NumberText.Double`: a finite real, one of the two infinities, or
  NaN. A `float` is treated as a `double`.
- `double.TryParse` and `double.Parse` in the invariant culture are modelled by
  `NumberText.ParseNumber`. This is a concrete plain-decimal grammar: white
  space at either end, an optional sign, and digits with at most one `.`.
- `int.Parse` is `NumberText.ParseInt32`, with the 32-bit overflow.
- Two library routines are parameters of the functions that call them:
  - the invariant-culture formatting of a non-zero double (`ScalarConversion.Formatter`);
  - `Version.Parse` (`VersionConversion.VersionParser`).
- Round trips through the formatter are proved value by value, under
  `ScalarConversion.RoundTripsAt(fmt, x)`: the formatter's text for `x` stays
  inside the plain grammar and parses back as `x`. This holds for the values
  that have an exact short decimal text. Among them are the integers the
  formatter writes as plain digits (`ScalarConversion.RoundTripsAtIntegers`):
  for an invariant double, those below 10^15 in magnitude. It does not hold for a value
  such as 1/3, which no decimal text denotes exactly.

`ToHumanString` builds its result in a loop. It is modelled as the method
`IdentifierCase.ToHumanString`, proved against the function `Spaced`, which
describes what the loop has built after each step. Everything else is
expression code and is modelled as functions, with lemmas for the properties.

Modules:

- `wrappers.dfy`: `Option`, `Result`, the exception kinds.
- `text.dfy`: white space, ASCII case mapping, `Trim`, `Split`.
- `numbers.dfy`: number grammars, integer text, IEEE division.
- `scalars.dfy`: doubles, ratios, the digit count.
- `compounds.dfy`: points, sizes, rectangles.
- `bools.dfy`: both boolean vocabularies.
- `identifiers.dfy`: case helpers and `ToHumanString`.
- `versions.dfy`: `ToVersion`.

## Model

| member | source | states |
|---|---|---|
| BoolConversion.BoolToEditorString | Xamarin.PropertyEditing/StringConversionExtensions.cs:11-14 | the editor text of a bool is "true" or "false", and "true" exactly for true |
| BoolConversion.EditorRoundTrip | Xamarin.PropertyEditing/StringConversionExtensions.cs:11-14 | ToEditorBool reads back the editor text of every bool |
| BoolConversion.ToEditorBool | Xamarin.PropertyEditing/StringConversionExtensions.cs:71-74 | true exactly when the text equals "true" under OrdinalIgnoreCase (same length, same upper-cased characters); false for null and everything else |
| BoolConversion.ToEditorBoolIgnoresCase | Xamarin.PropertyEditing/StringConversionExtensions.cs:71-74 | "TRUE" and "True" are read as true |
| BoolConversion.ToEditorBoolOtherLengths | Xamarin.PropertyEditing/StringConversionExtensions.cs:71-74 | null and every text whose length is not four are read as false |
| BoolConversion.TrimWhiteSpaceAndNull | Xamarin.PropertyEditing/StringConversionExtensions.cs:78 | the text bool.Parse compares has no white space or U+0000 at either end |
| BoolConversion.ParseBool | Xamarin.PropertyEditing/StringConversionExtensions.cs:78 | bool.Parse: null is an ArgumentNullException; true exactly for "True", and false exactly for "False", in any case after trimming; every other text is a FormatException |
| BoolConversion.EditorTextParses | Xamarin.PropertyEditing/StringConversionExtensions.cs:78 | bool.Parse reads the editor text of every bool back as that bool |
| BoolConversion.TrueTextParses | Xamarin.PropertyEditing/StringConversionExtensions.cs:78 | bool.Parse reads "true" as true |
| BoolConversion.FalseTextParses | Xamarin.PropertyEditing/StringConversionExtensions.cs:78 | bool.Parse reads "false" as false |
| BoolConversion.StoryboardBoolText | Xamarin.PropertyEditing/StringConversionExtensions.cs:76-79 | ToStoryboardBool(string) succeeds exactly when bool.Parse does, then gives that bool's storyboard text, and otherwise passes on bool.Parse's exception |
| BoolConversion.EditorTextToStoryboard | Xamarin.PropertyEditing/StringConversionExtensions.cs:76-84 | editor text converts to the storyboard text of the same bool |
| BoolConversion.StoryboardTextNotParsed | Xamarin.PropertyEditing/StringConversionExtensions.cs:76-84 | ToStoryboardBool(string) refuses storyboard text ("YES" or "NO") with a FormatException |
| BoolConversion.ToStoryboardBool | Xamarin.PropertyEditing/StringConversionExtensions.cs:81-84 | the storyboard text of a bool is "YES" or "NO", and "YES" exactly for true |
| BoolConversion.NullableToStoryboardBool | Xamarin.PropertyEditing/StringConversionExtensions.cs:86-91 | null gives null and only null does; a value gives exactly its storyboard text, "YES" or "NO", which FromStoryboardBool reads back as that value |
| BoolConversion.FromStoryboardBool | Xamarin.PropertyEditing/StringConversionExtensions.cs:93-96 | true exactly for the text "YES": null, other cases and surrounding white space are false |
| BoolConversion.StoryboardRoundTrip | Xamarin.PropertyEditing/StringConversionExtensions.cs:81-96 | FromStoryboardBool(ToStoryboardBool(b)) == b for both values of b |
| BoolConversion.FromStoryboardBoolExact | Xamarin.PropertyEditing/StringConversionExtensions.cs:93-96 | every text other than exactly "YES", null included, is false: no case folding and no trimming |
| BoolConversion.VocabulariesDisjoint | Xamarin.PropertyEditing/StringConversionExtensions.cs:71-96 | ToEditorBool reads no storyboard text as true, and FromStoryboardBool reads no editor text as true |
| ScalarConversion.ToEditorDouble | Xamarin.PropertyEditing/StringConversionExtensions.cs:16-42 | null or empty text is 0; text the number grammar accepts is its value, unchanged; the only failures are ArgumentException and NotSupportedException |
| ScalarConversion.ToEditorDoubleIfPossible | Xamarin.PropertyEditing/StringConversionExtensions.cs:65-69 | the probe succeeds exactly when the text is non-null and parses, and then yields the parsed value; otherwise the number is 0 |
| ScalarConversion.ToEditorFloatIfPossible | Xamarin.PropertyEditing/StringConversionExtensions.cs:57-63 | the probe succeeds exactly when the text is non-null and parses, as TryParse does; then ToEditorDouble gives the same number, and otherwise the number is 0 |
| ScalarConversion.RatioParts | Xamarin.PropertyEditing/StringConversionExtensions.cs:27-29 | the ':' pieces when the text has exactly one ':', and the '/' pieces otherwise |
| ScalarConversion.RatioOf | Xamarin.PropertyEditing/StringConversionExtensions.cs:31-41 | with two pieces that both parse, their quotient first / second; with two pieces of which one does not parse, an ArgumentException; with any other number of pieces, a NotSupportedException |
| ScalarConversion.RatioFallback | Xamarin.PropertyEditing/StringConversionExtensions.cs:22-31 | non-empty text that does not parse is read as a ratio of its pieces |
| ScalarConversion.ToEditorFloat | Xamarin.PropertyEditing/StringConversionExtensions.cs:44-47 | reads like ToEditorDouble: null and empty text are 0, parsed text is its value, other text is a ratio, and the only failures are ArgumentException and NotSupportedException |
| ScalarConversion.NotPlainNumber | Xamarin.PropertyEditing/StringConversionExtensions.cs:22-27 | text holding ':' or '/' never parses as a plain number, so it always takes the ratio path |
| ScalarConversion.RatioWithColon | Xamarin.PropertyEditing/StringConversionExtensions.cs:25-39 | "a:b" with a single ':' is a / b when both pieces parse, and an ArgumentException otherwise; a '/' inside a piece is not split again |
| ScalarConversion.RatioWithSlash | Xamarin.PropertyEditing/StringConversionExtensions.cs:25-39 | "a/b" is a / b when the ':' split did not give two pieces and both pieces parse, and an ArgumentException otherwise |
| ScalarConversion.RatioSyntaxesAgree | Xamarin.PropertyEditing/StringConversionExtensions.cs:25-35 | "a:b" and "a/b" read as the same value or the same error |
| ScalarConversion.ToEditorDoubleErrors | Xamarin.PropertyEditing/StringConversionExtensions.cs:27-41 | NotSupportedException exactly when neither split gives two pieces; ArgumentException exactly when the chosen split gives two pieces and one of them does not parse |
| ScalarConversion.NineAndFive | Xamarin.PropertyEditing/StringConversionExtensions.cs:33-34 | "9" and "5" parse as 9 and 5 |
| ScalarConversion.ColonMultiplierExample | Xamarin.PropertyEditing/StringConversionExtensions.cs:25 | "9:5" is 1.8 |
| ScalarConversion.SlashMultiplierExample | Xamarin.PropertyEditing/StringConversionExtensions.cs:26 | "9/5" is 1.8 |
| ScalarConversion.ThreePiecesNotSupported | Xamarin.PropertyEditing/StringConversionExtensions.cs:41 | "1:2:3" is a NotSupportedException |
| ScalarConversion.SlashInsideColonPiece | Xamarin.PropertyEditing/StringConversionExtensions.cs:27-38 | "1:2/3" is split on ':' alone, and is an ArgumentException because "2/3" does not parse |
| ScalarConversion.ToEditorString | Xamarin.PropertyEditing/StringConversionExtensions.cs:108-116 | zero is written exactly "0.0"; every other value is written by the invariant formatter |
| ScalarConversion.RoundTripsAtIntegers | Xamarin.PropertyEditing/StringConversionExtensions.cs:108-111 | an integer round-trips through a formatter that writes it as its digits, as the invariant formatter does below 10^15, so the round-trip hypothesis can be met |
| ScalarConversion.ToEditorStringParses | Xamarin.PropertyEditing/StringConversionExtensions.cs:108-116 | the editor text of a finite value parses back as that value: "0.0" for zero, and the formatter's text for every value at which it round-trips |
| ScalarConversion.ToEditorStringRoundTrip | Xamarin.PropertyEditing/StringConversionExtensions.cs:16-23 | ToEditorDouble reads back what ToEditorString wrote, for every value at which the formatter round-trips |
| ScalarConversion.ToEditorDigitsCount | Xamarin.PropertyEditing/StringConversionExtensions.cs:118-123 | never negative; positive exactly when the formatted length less the length of the truncated integer's text, less one, is positive, and then equal to it |
| ScalarConversion.DigitsCountOfPlainText | Xamarin.PropertyEditing/StringConversionExtensions.cs:118-123 | on plain text, the count is the number of fractional digits, except for values strictly between -1 and 0, where it is one more |
| ScalarConversion.DigitsCountOfMinusHalf | Xamarin.PropertyEditing/StringConversionExtensions.cs:120-122 | -0.5, written "-0.5", is counted as 2 fractional digits |
| ScalarConversion.FractionDigitsCount | Xamarin.PropertyEditing/StringConversionExtensions.cs:118-123 | the corrected count is never negative |
| ScalarConversion.FractionDigitsCountOfPlainText | Xamarin.PropertyEditing/StringConversionExtensions.cs:118-123 | the corrected count is the number of fractional digits for every sign and magnitude |
| CompoundConversion.ToEditorSize | Xamarin.PropertyEditing/StringConversionExtensions.cs:49-55 | null is a NullReferenceException; text without exactly one ',' is an ArgumentException; otherwise the width piece's exception, then the height piece's, propagates, and two readable pieces give that size |
| CompoundConversion.JoinFields | Xamarin.PropertyEditing/StringConversionExtensions.cs:127-129 | the format "{0}, {1}, ...": fields free of ',' are joined with exactly one ',' fewer than there are fields |
| CompoundConversion.PointToEditorString | Xamarin.PropertyEditing/StringConversionExtensions.cs:125-130 | with a comma-free formatter, a point's text splits on ',' into exactly two pieces; they read back, after trimming, as its coordinates whenever both are finite and round-trip |
| CompoundConversion.SizeToEditorString | Xamarin.PropertyEditing/StringConversionExtensions.cs:141-146 | with a comma-free formatter, a size's text splits on ',' into exactly the two pieces ToEditorSize asks for; they read back, after trimming, as its width and height whenever both are finite and round-trip |
| CompoundConversion.RectToDesignerString | Xamarin.PropertyEditing/StringConversionExtensions.cs:132-139 | with a comma-free formatter, a rectangle's designer text splits on ',' into exactly four pieces; they read back, after trimming, as its fields whenever all four are finite and round-trip |
| CompoundConversion.JoinFieldsLeadingSpace | Xamarin.PropertyEditing/StringConversionExtensions.cs:127 | a space put in front of the first field ends up in front of the joined text |
| CompoundConversion.SplitJoinFields | Xamarin.PropertyEditing/StringConversionExtensions.cs:51 | splitting fields joined by ", " on ',' gives one piece per field: the first field, then each later field with a space in front |
| CompoundConversion.SplitFirstField | Xamarin.PropertyEditing/StringConversionExtensions.cs:51 | splitting ", "-joined fields on ',' gives the first field as the first piece, then the pieces of the remaining joined text |
| CompoundConversion.FieldReadsBack | Xamarin.PropertyEditing/StringConversionExtensions.cs:54 | a number, with or without the separator's space in front, reads back after trimming, and holds no ',' |
| CompoundConversion.JoinedFieldsReadBack | Xamarin.PropertyEditing/StringConversionExtensions.cs:51-54 | numbers joined by ", " split into pieces that each read back, after trimming, as their number |
| CompoundConversion.TextsReadBack | Xamarin.PropertyEditing/StringConversionExtensions.cs:125-146 | fields that round-trip through the formatter are read back, piece by piece, from their ", "-joined editor texts |
| CompoundConversion.SizeRoundTrip | Xamarin.PropertyEditing/StringConversionExtensions.cs:49-55 | ToEditorSize reads back the size that ToEditorString(SizeF) wrote, whenever both fields round-trip through the formatter |
| CompoundConversion.IntegralSizeRoundTrip | Xamarin.PropertyEditing/StringConversionExtensions.cs:49-55 | ToEditorSize reads back every size with integral width and height that the formatter writes as plain digits (for an invariant double, below 10^15 in magnitude) |
| CompoundConversion.RectNotASize | Xamarin.PropertyEditing/StringConversionExtensions.cs:49-53 | with a comma-free formatter, ToEditorSize refuses every rectangle's designer text, NaN and infinite fields included, with an ArgumentException: it has four pieces, not two |
| IdentifierCase.ToHumanString | Xamarin.PropertyEditing/StringConversionExtensions.cs:151-163 | the result is the trimmed Spaced text; for input without white space the trim changes nothing, and deleting the spaces gives back the input with its first character upper-cased |
| IdentifierCase.Spaced | Xamarin.PropertyEditing/StringConversionExtensions.cs:155-161 | the text the loop has built after taking k characters; it holds at least those k characters, since the loop only adds spaces |
| IdentifierCase.SpacedEnds | Xamarin.PropertyEditing/StringConversionExtensions.cs:155-160 | the built text starts with the upper-cased first character and ends with the last character taken |
| IdentifierCase.SpacedKeepsEnds | Xamarin.PropertyEditing/StringConversionExtensions.cs:162 | for input without white space, the final Trim keeps the built text whole |
| IdentifierCase.RemoveSpacesSpaced | Xamarin.PropertyEditing/StringConversionExtensions.cs:155-161 | for input without spaces, deleting the inserted spaces gives back the input with its first character upper-cased |
| IdentifierCase.RemoveSpacesStep | Xamarin.PropertyEditing/StringConversionExtensions.cs:157-160 | each loop step adds, spaces aside, exactly the character taken |
| IdentifierCase.SpacedPrefix | Xamarin.PropertyEditing/StringConversionExtensions.cs:156-161 | the text built after i characters is a prefix of the text built after any later step |
| IdentifierCase.SpacedStep | Xamarin.PropertyEditing/StringConversionExtensions.cs:157-160 | one loop step puts the character taken right after the text built so far, or after a space exactly when SpaceBefore holds |
| IdentifierCase.SpaceMarks | Xamarin.PropertyEditing/StringConversionExtensions.cs:158-159 | in the final text, a space stands right before character i exactly when it is upper case, not the last one, and its neighbours are not both upper case |
| IdentifierCase.LastCharacterJoined | Xamarin.PropertyEditing/StringConversionExtensions.cs:158 | the last character directly follows the one before it: no space is ever inserted before it |
| IdentifierCase.TwoWordsExample | Xamarin.PropertyEditing/StringConversionExtensions.cs:151-163 | "IsOn" becomes "Is On" |
| IdentifierCase.AcronymExample | Xamarin.PropertyEditing/StringConversionExtensions.cs:158 | "IOPort" becomes "IO Port": an acronym stays together |
| IdentifierCase.ToCamelCase | Xamarin.PropertyEditing/StringConversionExtensions.cs:168-174 | null and empty text come back unchanged; otherwise the length is kept, the first character is lower-cased, and every later character is unchanged |
| IdentifierCase.ToPascalCase | Xamarin.PropertyEditing/StringConversionExtensions.cs:179-185 | null and empty text come back unchanged; otherwise the length is kept, the first character is upper-cased, and every later character is unchanged |
| IdentifierCase.CamelCaseIdempotent | Xamarin.PropertyEditing/StringConversionExtensions.cs:168-174 | applying ToCamelCase twice is applying it once |
| IdentifierCase.PascalCaseIdempotent | Xamarin.PropertyEditing/StringConversionExtensions.cs:179-185 | applying ToPascalCase twice is applying it once |
| IdentifierCase.CaseConversionsUndo | Xamarin.PropertyEditing/StringConversionExtensions.cs:168-185 | the conversion applied last decides the result: Pascal after camel is Pascal, and camel after Pascal is camel |
| IdentifierCase.CamelRoundTrip | Xamarin.PropertyEditing/StringConversionExtensions.cs:165-185 | a storyboard name that does not start upper case survives a round trip through Pascal case |
| VersionConversion.MajorVersion | Xamarin.PropertyEditing/StringConversionExtensions.cs:196 | new Version(major, 0) succeeds exactly for a non-negative major, with minor 0 and build and revision unset; otherwise it is an ArgumentOutOfRangeException |
| VersionConversion.ToVersion | Xamarin.PropertyEditing/StringConversionExtensions.cs:190-197 | null or empty text is the zero version; text with '.' is whatever Version.Parse gives; other text is a version exactly when int.Parse reads a non-negative number, which becomes its major number with minor 0 |
| VersionConversion.BareNumberVersion | Xamarin.PropertyEditing/StringConversionExtensions.cs:188-196 | the text of a non-negative 32-bit number reads as version major.0 |
| VersionConversion.NegativeBareNumber | Xamarin.PropertyEditing/StringConversionExtensions.cs:196 | the text of a negative number is an ArgumentOutOfRangeException |
| VersionConversion.OversizedBareNumber | Xamarin.PropertyEditing/StringConversionExtensions.cs:196 | a number beyond the 32-bit range, above it or below it, is an OverflowException |
| VersionConversion.BuildNumberExample | Xamarin.PropertyEditing/StringConversionExtensions.cs:188 | "3035" is version 3035.0 |
| NumberText.IntText | Xamarin.PropertyEditing/StringConversionExtensions.cs:103-106 | int.ToString(): no white space at the ends and no '.'; a '-' exactly for negative values, then the digits |
| NumberText.ParseNumber | Xamarin.PropertyEditing/StringConversionExtensions.cs:65-69 | double.TryParse in the invariant culture: blank text does not parse, and a parsed value is non-positive after a leading '-' and non-negative otherwise |
| NumberText.ParseInt32 | Xamarin.PropertyEditing/StringConversionExtensions.cs:196 | int.Parse: a 32-bit value that the number grammar reads the same way; a FormatException or an OverflowException otherwise |
| NumberText.ParseInt32IntText | Xamarin.PropertyEditing/StringConversionExtensions.cs:103-106 | int.Parse reads back what ToEditorString(int) wrote, for every 32-bit value |
| NumberText.ParseIntText | Xamarin.PropertyEditing/StringConversionExtensions.cs:33-34 | the text of an integer parses as that integer |
| NumberText.ParseZeroText | Xamarin.PropertyEditing/StringConversionExtensions.cs:110 | the zero text "0.0" parses as 0 |
| NumberText.FractionValue | Xamarin.PropertyEditing/StringConversionExtensions.cs:22-23 | the digits after the '.' are worth at least 0 and less than 1 |
| NumberText.DigitsBelowPow10 | Xamarin.PropertyEditing/StringConversionExtensions.cs:22-23 | n decimal digits are worth less than 10 to the n |
| NumberText.ParsedChars | Xamarin.PropertyEditing/StringConversionExtensions.cs:22-29 | text that parses holds only white space, digits, signs and '.', so no ':', '/' or ',' |
| NumberText.ParseTrimmed | Xamarin.PropertyEditing/StringConversionExtensions.cs:54 | parsing ignores white space around the number |
| NumberText.Quotient | Xamarin.PropertyEditing/StringConversionExtensions.cs:35 | IEEE division: a finite quotient for a non-zero divisor; for a zero divisor, an infinity, or NaN exactly when the dividend is 0 too |
| NumberText.Truncate | Xamarin.PropertyEditing/StringConversionExtensions.cs:120 | Math.Truncate: the integer nearest the value on the side of zero |
| TextPrimitives.Split | Xamarin.PropertyEditing/StringConversionExtensions.cs:27-29 | String.Split yields one piece more than there are separators |
| TextPrimitives.SplitPieces | Xamarin.PropertyEditing/StringConversionExtensions.cs:27-29 | no piece holds the separator |
| TextPrimitives.SplitNone | Xamarin.PropertyEditing/StringConversionExtensions.cs:51 | text without the separator is one piece |
| TextPrimitives.SplitAt | Xamarin.PropertyEditing/StringConversionExtensions.cs:27-29 | the text before the first separator is the first piece, and the rest is split on its own |
| TextPrimitives.LeadingCount | Xamarin.PropertyEditing/StringConversionExtensions.cs:54 | the number of leading characters from a set: all of them are in the set, and the next one is not |
| TextPrimitives.TrailingCount | Xamarin.PropertyEditing/StringConversionExtensions.cs:54 | the number of trailing characters from a set: all of them are in the set, and the one before them is not |
| TextPrimitives.TrimChars | Xamarin.PropertyEditing/StringConversionExtensions.cs:78 | String.Trim(chars): the result neither starts nor ends with a character of the set |
| TextPrimitives.TrimCharsCovers | Xamarin.PropertyEditing/StringConversionExtensions.cs:78 | every character of the input is in the set or a character of the trimmed text |
| TextPrimitives.TrimCharsKeeps | Xamarin.PropertyEditing/StringConversionExtensions.cs:78 | text whose ends are not in the set is unchanged |
| TextPrimitives.Trim | Xamarin.PropertyEditing/StringConversionExtensions.cs:54 | the result has no white space at either end |
| TextPrimitives.TrimCovers | Xamarin.PropertyEditing/StringConversionExtensions.cs:54 | every character of the input is white space or a character of the trimmed text |
| TextPrimitives.TrimKeeps | Xamarin.PropertyEditing/StringConversionExtensions.cs:162 | text whose ends are not white space is unchanged by Trim |
| TextPrimitives.TrimIdempotent | Xamarin.PropertyEditing/StringConversionExtensions.cs:54 | trimming twice is trimming once |
| TextPrimitives.TrimSkipsLeading | Xamarin.PropertyEditing/StringConversionExtensions.cs:54 | a leading white-space character does not change the result of Trim |
| TextPrimitives.Count | Xamarin.PropertyEditing/StringConversionExtensions.cs:28 | no more occurrences than characters, and none exactly when the character is absent |
| TextPrimitives.CountAppend | Xamarin.PropertyEditing/StringConversionExtensions.cs:28 | occurrences in a concatenation add up |
| TextPrimitives.ToUpper | Xamarin.PropertyEditing/StringConversionExtensions.cs:155 | a lower-case letter becomes its upper case; every other character is unchanged |
| TextPrimitives.ToLower | Xamarin.PropertyEditing/StringConversionExtensions.cs:173 | an upper-case letter becomes its lower case; every other character is unchanged |
| TextPrimitives.UpperOfLower | Xamarin.PropertyEditing/StringConversionExtensions.cs:168-185 | lower-casing before upper-casing, or upper-casing before lower-casing, changes nothing |
| TextPrimitives.RemoveSpaces | Xamarin.PropertyEditing/StringConversionExtensions.cs:159 | the result holds no space and is no longer than the input |
| TextPrimitives.RemoveSpacesChar | Xamarin.PropertyEditing/StringConversionExtensions.cs:159 | a space is deleted and every other single character is kept |
| TextPrimitives.RemoveSpacesAppend | Xamarin.PropertyEditing/StringConversionExtensions.cs:159 | deleting spaces distributes over concatenation |

## Left out

- The IEEE parsing of `double.TryParse` and `double.Parse` is replaced by a plain decimal grammar on reals. Thousands separators, exponents, currency symbols, parentheses, trailing signs and the symbols "Infinity" and "NaN" are not part of it. The two calls, which use different number styles in the source, share this one grammar.
- Invariant-culture formatting of a non-zero double or float is a parameter. That it never writes a ',' is the hypothesis `CompoundConversion.CommaFree`, under which the compound texts have their arity. The round-trip lemmas hold for each value whose formatted text parses back as that value within the plain grammar. Values written in exponent notation, and values whose shortest text only approximates them, are not covered.
- `double.TryParse` and `double.Parse` accept trailing U+0000 characters. NumberText.ParseNumber does not.
- `int.Parse` in ToVersion (line 196) and the `ToString()` of the truncated value in ToEditorDigitsCount (line 120) use the current culture. The model uses the invariant one.
- ScalarConversion.ToEditorDigitsCount takes a finite real, so NaN and the infinities are not inputs of the model.
- `float` narrowing in ToEditorFloat and ToEditorFloatIfPossible, rounding of real values to doubles, and negative zero are not modelled. Doubles are exact reals.
- Division by zero in the ratio path gives an infinity or NaN (NumberText.Quotient). The signs of infinities and of zero beyond that are not modelled.
- White space and case mapping cover ASCII only. This applies to char.IsWhiteSpace, char.IsUpper, char.ToUpper and ToLowerInvariant, and to the OrdinalIgnoreCase comparison. Culture-specific case mapping in ToHumanString is not modelled.
- `int.Parse` accepts trailing U+0000 characters. NumberText.ParseInt32 does not.
- `ToEditorEnum` (line 98-101) is left out: it parses an enum type by reflection.
- The inside of `Version.Parse` is left out: it is a library routine, and is a parameter of ToVersion.
- IdentifierCase.ToHumanString: requires non-empty text, because the source indexes `str[0]` and throws on empty text. The `obj.ToString()` call on a null receiver is not modelled: the method takes the text itself.
- ScalarConversion.ToEditorDigitsCount: the cast of the truncated value to `int` is taken to be exact. Values beyond the 32-bit range, where the cast does not give the integer part, are not modelled.
- The editor controls that use these conversions are not part of this model. Neither is the FieldValidation class they call: it is not part of this model's sources.

## Findings

| source | as written | input that shows it | evidently intended | confidence | as-written member | corrected member |
|---|---|---|---|---|---|---|
| Xamarin.PropertyEditing/StringConversionExtensions.cs:120-122 | the integer-part length is taken from `(int)Math.Truncate(value)`, whose text loses the '-' for values strictly between -1 and 0 | -0.5, formatted "-0.5": the count is 2, not 1 | the number of fractional digits, counting the sign from the value itself | not executed | ScalarConversion.DigitsCountOfMinusHalf | ScalarConversion.FractionDigitsCount |
