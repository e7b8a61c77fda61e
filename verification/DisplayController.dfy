/**
  The panel controller's frame formatter. `renderValue` writes
  "%c%c%06ld" of the panel letter, the mode letter and the value into a
  9-byte buffer with `snprintf` and hands the buffer, as a null-terminated
  string, to the display. The model returns that string instead of sending it.
 */
module DisplayController {
  import opened Wrappers
  import opened Modes
  import opened CFormat

  /** Size of the frame buffer: eight characters and the terminator. */
  const BufferSize: nat := 9

  /** Minimum field width of the value conversion. */
  const FieldWidth: nat := 6

  /** A panel: the identifying letter fixed at construction ('L' or 'r' in the sketch). */
  datatype Panel = Panel(idChar: char)

  /** The mode letter: 'd' for 0, 'f' for 1, and 'b' for 2 and every other selector. */
  function ModeChar(mode: int): (c: char)
    ensures FromSelector(mode).Some? ==> c == Letter(FromSelector(mode).value)
    ensures FromSelector(mode).None? ==> c == 'b'
    ensures c == 'd' <==> mode == 0
    ensures c == 'f' <==> mode == 1
    ensures c == 'b' <==> mode != 0 && mode != 1
  {
    if mode == 0 then 'd'
    else if mode == 1 then 'f'
    else 'b'
  }

  /** The full output of the "%c%c%06ld" conversion, before any truncation. */
  function FrameOutput(p: Panel, value: int, mode: int): seq<char>
  {
    [p.idChar, ModeChar(mode)] + ZeroPadded(value, FieldWidth)
  }

  /** The string `renderValue` passes to the display. */
  function RenderValue(p: Panel, value: int, mode: int): (frame: seq<char>)
    ensures |frame| <= BufferSize - 1
    ensures p.idChar != '\0' ==> |frame| == BufferSize - 1
    ensures p.idChar != '\0' ==> frame[0] == p.idChar && frame[1] == ModeChar(mode)
    ensures p.idChar != '\0' ==> frame == FrameOutput(p, value, mode)[..BufferSize - 1]
    ensures p.idChar == '\0' ==> frame == []
  {
    var output := FrameOutput(p, value, mode);
    var buf := SnprintfStore(output, BufferSize);
    if p.idChar != '\0' then
      ZeroPaddedNullFree(value, FieldWidth);
      assert '\0' !in output;
      PrefixNullFree(buf, output);
      CStringOfNullFree(buf);
      CString(buf)
    else
      CString(buf)
  }

  /** The value field: characters 3 to 8 of the frame. */
  function Field(p: Panel, value: int, mode: int): seq<char>
  {
    var frame := RenderValue(p, value, mode);
    if |frame| >= 2 then frame[2..] else []
  }

  /** The `%ld` rendering fits the 6-character field exactly for -99999 ..= 999999. */
  lemma FitsField(value: int)
    ensures |SignedDecimal(value)| <= FieldWidth <==> -99999 <= value <= 999999
  {
    Pow10Small();
    if value < 0 {
      DecimalFits(-value, 5);
    } else {
      DecimalFits(value, 6);
    }
  }

  /** In range, the field is the whole `%06ld` rendering, zero-padded on the
      left after any sign. */
  lemma FieldInRange(p: Panel, value: int, mode: int)
    requires p.idChar != '\0'
    requires -99999 <= value <= 999999
    ensures Field(p, value, mode) == ZeroPadded(value, FieldWidth)
    ensures 0 <= value ==> Field(p, value, mode) == Zeros(6 - |Decimal(value)|) + Decimal(value)
    ensures value < 0 ==> Field(p, value, mode) == ['-'] + Zeros(5 - |Decimal(-value)|) + Decimal(-value)
  {
    FitsField(value);
    var out := FrameOutput(p, value, mode);
    assert |out| == 8;
    assert out[..8] == out;
    assert Field(p, value, mode) == out[2..];
    assert out[2..] == ZeroPadded(value, FieldWidth);
    ZeroPaddedLayout(value, FieldWidth);
  }

  /** Out of range, the field holds the leading six characters of the `%ld` rendering. */
  lemma FieldTruncated(p: Panel, value: int, mode: int)
    requires p.idChar != '\0'
    requires value < -99999 || 999999 < value
    ensures |SignedDecimal(value)| > FieldWidth
    ensures Field(p, value, mode) == SignedDecimal(value)[..FieldWidth]
  {
    FitsField(value);
    var out := FrameOutput(p, value, mode);
    assert out[..8][2..] == ZeroPadded(value, FieldWidth)[..6];
  }

  /** Reading the field back as a signed decimal recovers the value exactly
      when the value lies in -99999 ..= 999999. */
  lemma FieldRoundTrip(p: Panel, value: int, mode: int)
    requires p.idChar != '\0'
    ensures ParseSigned(Field(p, value, mode)) == Some(value) <==> -99999 <= value <= 999999
  {
    FitsField(value);
    Pow10Small();
    var field := Field(p, value, mode);
    if -99999 <= value <= 999999 {
      FieldInRange(p, value, mode);
      ZeroPaddedRoundTrip(value, FieldWidth);
    } else if value > 999999 {
      FieldTruncated(p, value, mode);
      var digits := SignedDecimal(value);
      assert field == digits[..6];
      assert AllDigits(field);
      assert ParseSigned(field) == Some(DigitsValue(field) as int);
    } else {
      FieldTruncated(p, value, mode);
      var digits := Decimal(-value);
      assert field == (['-'] + digits)[..6];
      assert field[1..] == digits[..5];
      assert AllDigits(field[1..]);
      assert DigitsValue(field[1..]) < 100000;
    }
  }

  /** Every selector other than 0 and 1 draws the same frame as selector 2. */
  lemma UnknownModeLooksLikeBackward(p: Panel, value: int, mode: int)
    requires FromSelector(mode).None?
    ensures RenderValue(p, value, mode) == RenderValue(p, value, 2)
  {
  }

  /** A frame is the first eight characters of the two letters and the value field. */
  lemma FrameFromField(p: Panel, value: int, mode: int, field: seq<char>)
    requires p.idChar != '\0'
    requires ZeroPadded(value, FieldWidth) == field
    ensures RenderValue(p, value, mode) == ([p.idChar, ModeChar(mode)] + field)[..BufferSize - 1]
  {
  }

  /** The fields of the example values. */
  lemma ExampleFields()
    ensures ZeroPadded(123, FieldWidth) == "000123"
    ensures ZeroPadded(-5, FieldWidth) == "-00005"
    ensures ZeroPadded(7, FieldWidth) == "000007"
  {
    assert Decimal(123) == "123" by {
      assert Decimal(1) == "1";
      assert Decimal(12) == Decimal(1) + [DigitChar(2)] == "12";
      assert Decimal(123) == Decimal(12) + [DigitChar(3)];
    }
    assert Decimal(5) == "5";
    assert Decimal(7) == "7";
    ZeroPaddedLayout(123, FieldWidth);
    ZeroPaddedLayout(-5, FieldWidth);
    ZeroPaddedLayout(7, FieldWidth);
  }

  /** The frame the panel's documentation gives: difference mode, 123, on panel 'L'. */
  lemma ExampleDifference(p: Panel)
    requires p.idChar != '\0'
    ensures RenderValue(p, 123, 0) == [p.idChar] + "d000123"
    ensures p.idChar == 'L' ==> RenderValue(p, 123, 0) == "Ld000123"
  {
    ExampleFields();
    FrameFromField(p, 123, 0, "000123");
  }

  /** A negative value: the sign takes one of the six places. */
  lemma ExampleNegative(p: Panel)
    requires p.idChar != '\0'
    ensures RenderValue(p, -5, 1) == [p.idChar] + "f-00005"
    ensures p.idChar == 'r' ==> RenderValue(p, -5, 1) == "rf-00005"
  {
    ExampleFields();
    FrameFromField(p, -5, 1, "-00005");
  }

  /** Backward mode, and an unknown selector drawn as backward. */
  lemma ExampleBackward(p: Panel)
    requires p.idChar != '\0'
    ensures RenderValue(p, 7, 2) == [p.idChar] + "b000007"
    ensures RenderValue(p, 7, 9) == [p.idChar] + "b000007"
    ensures p.idChar == 'r' ==> RenderValue(p, 7, 2) == "rb000007"
  {
    ExampleFields();
    FrameFromField(p, 7, 2, "000007");
    FrameFromField(p, 7, 9, "000007");
  }

  /** The digits of 10^5 and 10^6. */
  lemma PowersOfTenDigits()
    ensures Decimal(100000) == "100000"
    ensures Decimal(1000000) == "1000000"
  {
    assert Decimal(1) == "1";
    assert Decimal(10) == Decimal(1) + [DigitChar(0)] == "10";
    assert Decimal(100) == Decimal(10) + [DigitChar(0)] == "100";
    assert Decimal(1000) == Decimal(100) + [DigitChar(0)] == "1000";
    assert Decimal(10000) == Decimal(1000) + [DigitChar(0)] == "10000";
    assert Decimal(100000) == Decimal(10000) + [DigitChar(0)] == "100000";
    assert Decimal(1000000) == Decimal(100000) + [DigitChar(0)] == "1000000";
  }

  /** The first value past the top of the field keeps only its leading six characters. */
  lemma ExampleTruncatedHigh(p: Panel)
    requires p.idChar != '\0'
    ensures RenderValue(p, 1000000, 0) == [p.idChar] + "d100000"
  {
    PowersOfTenDigits();
    assert ZeroPadded(1000000, FieldWidth) == "1000000";
    FrameFromField(p, 1000000, 0, "1000000");
  }

  /** The first value past the bottom of the field keeps only its leading six characters. */
  lemma ExampleTruncatedLow(p: Panel)
    requires p.idChar != '\0'
    ensures RenderValue(p, -100000, 0) == [p.idChar] + "d-10000"
  {
    PowersOfTenDigits();
    assert ZeroPadded(-100000, FieldWidth) == "-100000";
    FrameFromField(p, -100000, 0, "-100000");
  }
}
