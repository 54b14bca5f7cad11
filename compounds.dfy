/**
 * The compound literals of StringConversionExtensions: points, sizes and
 * rectangles written as their fields joined by ", ", and a size read back
 * from such text.
 */
module CompoundConversion {
  import opened Wrappers
  import opened Errors
  import opened TextPrimitives
  import opened NumberText
  import opened ScalarConversion

  /** A size: width and height. */
  datatype SizeF = SizeF(width: Double, height: Double)

  /** A point: its two coordinates. */
  datatype PointF = PointF(x: Double, y: Double)

  /** A rectangle: origin, width and height. */
  datatype RectangleF = RectangleF(x: Double, y: Double, width: Double, height: Double)

  /**
   * ToEditorSize: the text must hold exactly one ',' (two pieces); each piece
   * is trimmed and read with ToEditorFloat, the width first, and the first
   * failure propagates.
   */
  function ToEditorSize(value: NullableString): (r: Result<SizeF, Exception>)
    ensures value == None ==> r == Err(NullReferenceException)
    ensures value.Some? && Count(value.value, ',') != 1 ==> r == Err(ArgumentException)
    ensures value.Some? && Count(value.value, ',') == 1 ==>
      var width := ToEditorFloat(Some(Trim(Split(value.value, ',')[0])));
      var height := ToEditorFloat(Some(Trim(Split(value.value, ',')[1])));
      (width.Err? ==> r == Err(width.error)) &&
      (width.Ok? && height.Err? ==> r == Err(height.error)) &&
      (width.Ok? && height.Ok? ==> r == Ok(SizeF(width.value, height.value)))
    ensures r.Err? ==> r.error in {NullReferenceException, ArgumentException, NotSupportedException}
  {
    match value
    case None => Err(NullReferenceException)
    case Some(s) =>
      var parts := Split(s, ',');
      if |parts| != 2 then Err(ArgumentException)
      else
        match ToEditorFloat(Some(Trim(parts[0])))
        case Err(e) => Err(e)
        case Ok(width) =>
          match ToEditorFloat(Some(Trim(parts[1])))
          case Err(e) => Err(e)
          case Ok(height) => Ok(SizeF(width, height))
  }

  /**
   * The format "{0}, {1}, ...": the field texts joined by ", ", so fields free
   * of ',' give one ',' fewer than there are fields.
   */
  function JoinFields(fields: seq<string>): (r: string)
    requires fields != []
    ensures NoCommas(fields) ==> Count(r, ',') == |fields| - 1
  {
    if |fields| == 1 then fields[0]
    else
      var rest := JoinFields(fields[1..]);
      CountAppend(fields[0], ", ", ',');
      CountAppend(fields[0] + ", ", rest, ',');
      assert Count(", ", ',') == 1;
      assert forall i :: 0 <= i < |fields| - 1 ==> fields[1..][i] == fields[i + 1];
      fields[0] + ", " + rest
  }

  /** No field holds a ','. */
  predicate NoCommas(fields: seq<string>) {
    forall i :: 0 <= i < |fields| ==> ',' !in fields[i]
  }

  /** The editor texts of the fields, in order. */
  function FieldTexts(values: seq<Double>, fmt: Formatter): (texts: seq<string>)
    ensures |texts| == |values|
    ensures forall i :: 0 <= i < |values| ==> texts[i] == ToEditorString(values[i], fmt)
  {
    seq(|values|, i requires 0 <= i < |values| => ToEditorString(values[i], fmt))
  }

  /** Every field is finite, and the formatter's text for it parses back as it. */
  predicate FieldsRoundTrip(values: seq<Double>, fmt: Formatter) {
    forall i :: 0 <= i < |values| ==> values[i].Finite? && RoundTripsAt(fmt, values[i].value)
  }

  /**
   * The formatter never writes a ','. The invariant culture's general format
   * has no group separator, and its "NaN", "Infinity" and exponent texts have
   * no ',' either.
   */
  ghost predicate CommaFree(fmt: Formatter) {
    forall d :: ',' !in fmt(d)
  }

  /** A comma-free formatter gives comma-free editor texts, "0.0" included. */
  lemma FieldTextsCommaFree(values: seq<Double>, fmt: Formatter)
    ensures CommaFree(fmt) ==> NoCommas(FieldTexts(values, fmt))
  {
  }

  /**
   * ToEditorString(PointF): "x, y". With a comma-free formatter it has two
   * pieces, which read back as the coordinates when both round-trip.
   */
  function PointToEditorString(p: PointF, fmt: Formatter): (r: string)
    ensures CommaFree(fmt) ==> |Split(r, ',')| == 2
    ensures FieldsRoundTrip([p.x, p.y], fmt) ==> FieldsReadBack(Split(r, ','), [p.x, p.y])
  {
    FieldTextsCommaFree([p.x, p.y], fmt);
    TextsReadBack([p.x, p.y], fmt);
    JoinFields(FieldTexts([p.x, p.y], fmt))
  }

  /**
   * ToEditorString(SizeF): "width, height". With a comma-free formatter it has
   * the two pieces ToEditorSize asks for, which read back as width and height
   * when both round-trip.
   */
  function SizeToEditorString(size: SizeF, fmt: Formatter): (r: string)
    ensures CommaFree(fmt) ==> |Split(r, ',')| == 2
    ensures FieldsRoundTrip([size.width, size.height], fmt) ==>
      FieldsReadBack(Split(r, ','), [size.width, size.height])
  {
    FieldTextsCommaFree([size.width, size.height], fmt);
    TextsReadBack([size.width, size.height], fmt);
    JoinFields(FieldTexts([size.width, size.height], fmt))
  }

  /**
   * ToDesignerString(RectangleF): "x, y, width, height". With a comma-free
   * formatter it has four pieces, which read back as the fields when all four
   * round-trip.
   */
  function RectToDesignerString(rect: RectangleF, fmt: Formatter): (r: string)
    ensures CommaFree(fmt) ==> |Split(r, ',')| == 4
    ensures FieldsRoundTrip([rect.x, rect.y, rect.width, rect.height], fmt) ==>
      FieldsReadBack(Split(r, ','), [rect.x, rect.y, rect.width, rect.height])
  {
    FieldTextsCommaFree([rect.x, rect.y, rect.width, rect.height], fmt);
    TextsReadBack([rect.x, rect.y, rect.width, rect.height], fmt);
    JoinFields(FieldTexts([rect.x, rect.y, rect.width, rect.height], fmt))
  }

  /** Putting a space in front of the first field puts it in front of the joined text. */
  lemma {:induction false} JoinFieldsLeadingSpace(fields: seq<string>)
    requires fields != []
    ensures JoinFields([" " + fields[0]] + fields[1..]) == " " + JoinFields(fields)
  {
    var spaced := [" " + fields[0]] + fields[1..];
    assert spaced[1..] == fields[1..];
  }

  /**
   * Splitting joined fields on ',' gives the fields back, each after the first
   * with the space the separator left in front of it.
   */
  lemma {:induction false} SplitJoinFields(fields: seq<string>)
    requires fields != []
    requires NoCommas(fields)
    ensures |Split(JoinFields(fields), ',')| == |fields|
    ensures Split(JoinFields(fields), ',')[0] == fields[0]
    ensures forall i :: 1 <= i < |fields| ==> Split(JoinFields(fields), ',')[i] == " " + fields[i]
    decreases |fields|
  {
    if |fields| == 1 {
      SplitNone(fields[0], ',');
    } else {
      var spaced := SpaceSecond(fields);
      SplitJoinFields(spaced);
      var parts, tail := Split(JoinFields(fields), ','), Split(JoinFields(spaced), ',');
      assert parts == [fields[0]] + tail by {
        SplitFirstField(fields);
      }
      forall i | 1 <= i < |fields| ensures parts[i] == " " + fields[i] {
        assert parts[i] == tail[i - 1];
      }
    }
  }

  /** The fields after the first, the separator's space put in front of the second. */
  function SpaceSecond(fields: seq<string>): (spaced: seq<string>)
    requires |fields| >= 2 && NoCommas(fields)
    ensures |spaced| == |fields| - 1 && NoCommas(spaced)
    ensures spaced[0] == " " + fields[1]
    ensures forall i :: 1 <= i < |spaced| ==> spaced[i] == fields[i + 1]
  {
    var rest := fields[1..];
    assert ',' !in " " + rest[0] by {
      assert ',' !in rest[0];
    }
    [" " + rest[0]] + rest[1..]
  }

  /** The first field is the first piece, and the rest of the joined text is the joined SpaceSecond fields. */
  lemma {:induction false} SplitFirstField(fields: seq<string>)
    requires |fields| >= 2 && NoCommas(fields)
    ensures Split(JoinFields(fields), ',') == [fields[0]] + Split(JoinFields(SpaceSecond(fields)), ',')
  {
    var rest, spaced := fields[1..], SpaceSecond(fields);
    assert spaced == [" " + rest[0]] + rest[1..];
    var tailText := JoinFields(spaced);
    assert tailText == " " + JoinFields(rest) by {
      JoinFieldsLeadingSpace(rest);
    }
    assert JoinFields(fields) == fields[0] + [','] + tailText;
    SplitAt(fields[0], tailText, ',');
  }

  /** Each piece of a compound text is read back, after trimming, as its field. */
  ghost predicate FieldsReadBack(parts: seq<string>, fields: seq<Double>) {
    |parts| == |fields| &&
    forall i :: 0 <= i < |parts| ==> ToEditorFloat(Some(Trim(parts[i]))) == Ok(fields[i])
  }

  /** A number, with or without the space the ", " separator leaves in front of it, reads back after trimming. */
  lemma FieldReadsBack(t: string, x: real)
    requires ParseNumber(t) == Some(x)
    ensures ToEditorFloat(Some(Trim(t))) == Ok(Finite(x))
    ensures ToEditorFloat(Some(Trim(" " + t))) == Ok(Finite(x))
    ensures ',' !in t
  {
    ParsedChars(t);
    ParseTrimmed(t);
    assert Trim(t) != [];
    TrimSkipsLeading(' ', t);
    assert " " + t == [' '] + t;
  }

  /** Numbers joined by ", " split back into pieces that read back as the numbers. */
  lemma JoinedFieldsReadBack(texts: seq<string>, values: seq<Double>)
    requires texts != [] && |texts| == |values|
    requires forall i :: 0 <= i < |texts| ==> values[i].Finite? && ParseNumber(texts[i]) == Some(values[i].value)
    ensures FieldsReadBack(Split(JoinFields(texts), ','), values)
  {
    var parts := Split(JoinFields(texts), ',');
    assert |parts| == |texts| && parts[0] == texts[0] &&
      forall i :: 1 <= i < |texts| ==> parts[i] == " " + texts[i]
    by {
      assert NoCommas(texts) by {
        forall i | 0 <= i < |texts| ensures ',' !in texts[i] {
          FieldReadsBack(texts[i], values[i].value);
        }
      }
      SplitJoinFields(texts);
    }
    forall i | 0 <= i < |parts| ensures ToEditorFloat(Some(Trim(parts[i]))) == Ok(values[i]) {
      FieldReadsBack(texts[i], values[i].value);
      if i > 0 {
        assert parts[i] == " " + texts[i];
      }
    }
  }

  /** Fields whose texts round-trip are read back, piece by piece, from their joined text. */
  lemma TextsReadBack(values: seq<Double>, fmt: Formatter)
    requires values != []
    ensures FieldsRoundTrip(values, fmt) ==> FieldsReadBack(Split(JoinFields(FieldTexts(values, fmt)), ','), values)
  {
    if FieldsRoundTrip(values, fmt) {
      var texts := FieldTexts(values, fmt);
      forall i | 0 <= i < |texts| ensures values[i].Finite? && ParseNumber(texts[i]) == Some(values[i].value) {
        ToEditorStringParses(values[i].value, fmt);
      }
      JoinedFieldsReadBack(texts, values);
    }
  }

  /** Size round trip: ToEditorSize reads back what ToEditorString(SizeF) wrote. */
  lemma SizeRoundTrip(size: SizeF, fmt: Formatter)
    requires FieldsRoundTrip([size.width, size.height], fmt)
    ensures ToEditorSize(Some(SizeToEditorString(size, fmt))) == Ok(size)
  {
    var parts := Split(SizeToEditorString(size, fmt), ',');
    assert ToEditorFloat(Some(Trim(parts[0]))) == Ok(size.width);
    assert ToEditorFloat(Some(Trim(parts[1]))) == Ok(size.height);
  }

  /**
   * The round trip holds for every size with integral width and height that
   * the formatter writes as plain digits (an invariant double below 10^15 in
   * magnitude; larger ones are written in exponent form).
   */
  lemma IntegralSizeRoundTrip(width: int, height: int, fmt: Formatter)
    requires fmt(Finite(width as real)) == IntText(width) && fmt(Finite(height as real)) == IntText(height)
    ensures var size := SizeF(Finite(width as real), Finite(height as real));
      ToEditorSize(Some(SizeToEditorString(size, fmt))) == Ok(size)
  {
    RoundTripsAtIntegers(fmt, width);
    RoundTripsAtIntegers(fmt, height);
    var size := SizeF(Finite(width as real), Finite(height as real));
    assert FieldsRoundTrip([size.width, size.height], fmt);
    SizeRoundTrip(size, fmt);
  }

  /**
   * A rectangle's designer text has four pieces, so ToEditorSize refuses it
   * for its arity, whatever its fields (NaN and the infinities included).
   */
  lemma RectNotASize(rect: RectangleF, fmt: Formatter)
    requires CommaFree(fmt)
    ensures ToEditorSize(Some(RectToDesignerString(rect, fmt))) == Err(ArgumentException)
  {
    var text := RectToDesignerString(rect, fmt);
    assert Count(text, ',') == 3 by {
      assert |Split(text, ',')| == 4;
    }
  }
}
