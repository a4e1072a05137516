/**
 * The 260SB status line: the reply text is encoded as UTF-8, cut into the
 * fixed-width fields of `ResponseLayout`, and the first five fields are
 * converted to the reading the driver keeps.
 */
module ResponseDecoding {
  import opened Wrappers
  import opened Utf8
  import opened PyNumbers
  import opened StructLayout
  import opened Numerals

  /** What a successful decode stores on the instrument. */
  datatype Reading = Reading(
    temperature: FloatValue,  // `is_temp`, `float` of bytes 0..4
    humidity: int,            // `is_hum`, `int` of bytes 6..7
    printer: bool,            // `printer_stat`, byte 9 is `1`
    indicator: seq<byte>,     // heating/cooling indicator, byte 10 verbatim
    setpointEcho: seq<byte>)  // `set_temp`, bytes 21..27 verbatim

  /**
   * Why a decode stopped. `BadHumidity` carries the temperature that was
   * already converted, because the driver stores it before it converts
   * the humidity.
   */
  datatype DecodeError =
    | LayoutMismatch(cause: StructError)
    | BadTemperature(text: seq<byte>)
    | BadHumidity(temperature: FloatValue, text: seq<byte>)

  /** The byte `1` that marks the printer as on. */
  const PrinterOn: byte := 0x31

  /** The sample status line the driver documents. */
  const SampleLine: string := " 18.4F00P1>TEMP-SOLL:" + "  42.03" + "C  0T-99.9#--T 42.0F00R11100000"

  /** `parseResponse` on the reply text: encode it, then decode the bytes. */
  function DecodeResponse(msg: string): Result<Reading, DecodeError>
  {
    DecodeBytes(Encode(msg))
  }

  /** Unpack the status line, then convert its fields. */
  function DecodeBytes(b: seq<byte>): Result<Reading, DecodeError>
  {
    ResponseFieldWidths();
    match Unpack(ResponseLayout, b)
    case Err(e) => Err(LayoutMismatch(e))
    case Ok(fields) => ConvertFields(fields[0], fields[1], fields[2], fields[3], fields[4])
  }

  /** The conversions of `parseResponse`, in the driver's order. */
  function ConvertFields(temperature: seq<byte>, humidity: seq<byte>, printer: seq<byte>,
                         indicator: seq<byte>, echo: seq<byte>): Result<Reading, DecodeError>
  {
    match ParseFloat(AsText(temperature))
    case None => Err(BadTemperature(temperature))
    case Some(t) =>
      match ParseInt(AsText(humidity))
      case None => Err(BadHumidity(t, humidity))
      case Some(h) => Ok(Reading(t, h, printer == [PrinterOn], indicator, echo))
  }

  /** The layout fails exactly when the status line is not 59 bytes long. */
  lemma DecodeLength(b: seq<byte>)
    ensures DecodeBytes(b).Err? && DecodeBytes(b).error.LayoutMismatch? <==> |b| != 59
    ensures |b| != 59 ==> DecodeBytes(b) == Err(LayoutMismatch(SizeMismatch(59, |b|)))
  {
    ResponseSize();
  }

  /**
   * On a 59-byte line each stored value comes from its fixed offset, and
   * the decode fails only where `float` or `int` rejects its field.
   */
  lemma DecodeOffsets(b: seq<byte>)
    requires |b| == 59
    ensures var t := ParseFloat(AsText(b[0..5]));
      var h := ParseInt(AsText(b[6..8]));
      && (DecodeBytes(b).Ok? <==> t.Some? && h.Some?)
      && (t.None? ==> DecodeBytes(b) == Err(BadTemperature(b[0..5])))
      && (t.Some? && h.None? ==> DecodeBytes(b) == Err(BadHumidity(t.value, b[6..8])))
      && (t.Some? && h.Some? ==>
            DecodeBytes(b) == Ok(Reading(t.value, h.value, b[9] == PrinterOn, b[10..11], b[21..28])))
  {
    DecodeAtOffsets(b);
    ConvertCases(b[0..5], b[6..8], b[9..10], b[10..11], b[21..28]);
    PrinterByte(b);
  }

  /** The conversions fail at the first field `float` or `int` rejects. */
  lemma ConvertCases(temperature: seq<byte>, humidity: seq<byte>, printer: seq<byte>,
                     indicator: seq<byte>, echo: seq<byte>)
    ensures var t := ParseFloat(AsText(temperature));
      var h := ParseInt(AsText(humidity));
      var r := ConvertFields(temperature, humidity, printer, indicator, echo);
      && (r.Ok? <==> t.Some? && h.Some?)
      && (t.None? ==> r == Err(BadTemperature(temperature)))
      && (t.Some? && h.None? ==> r == Err(BadHumidity(t.value, humidity)))
      && (t.Some? && h.Some? ==> r == Ok(Reading(t.value, h.value, printer == [PrinterOn], indicator, echo)))
  {
  }

  /** The printer field is the one byte at offset 9. */
  lemma PrinterByte(b: seq<byte>)
    requires |b| == 59
    ensures (b[9..10] == [PrinterOn]) == (b[9] == PrinterOn)
  {
    assert |b[9..10]| == 1 && b[9..10][0] == b[9];
  }

  lemma DecodeAtOffsets(b: seq<byte>)
    requires |b| == 59
    ensures DecodeBytes(b) == ConvertFields(b[0..5], b[6..8], b[9..10], b[10..11], b[21..28])
  {
    ResponseFields(b);
    var fields := [b[0..5], b[6..8], b[9..10], b[10..11], b[21..28], b[29..32], b[33..38]];
    assert Unpack(ResponseLayout, b) == Ok(fields);
  }

  /** A reply of 59 characters with one outside ASCII encodes longer and is refused. */
  lemma NonAsciiRefused(msg: string)
    requires |msg| == 59 && !IsAscii(msg)
    ensures DecodeResponse(msg).Err? && DecodeResponse(msg).error.LayoutMismatch?
  {
    EncodeLength(msg);
    DecodeLength(Encode(msg));
  }

  /** For an ASCII reply, a byte range is the encoding of the same range of characters. */
  lemma AsciiSlice(msg: string, i: nat, j: nat)
    requires IsAscii(msg) && i <= j <= |msg|
    ensures |Encode(msg)| == |msg|
    ensures Encode(msg)[i..j] == Encode(msg[i..j])
    ensures AsText(Encode(msg)[i..j]) == msg[i..j]
  {
    AsciiEncoding(msg);
    var part := msg[i..j];
    assert IsAscii(part) by {
      forall k | 0 <= k < |part|
        ensures part[k] as int < 0x80
      {
        assert part[k] == msg[i + k];
      }
    }
    AsciiEncoding(part);
    assert Encode(msg)[i..j] == Encode(part) by {
      forall k | 0 <= k < j - i
        ensures Encode(msg)[i..j][k] == Encode(part)[k]
      {
        assert part[k] == msg[i + k];
      }
    }
    AsciiRoundTrip(part);
  }

  /**
   * An ASCII reply of 59 characters decodes from its character positions:
   * the text at 0..4 as `float`, at 6..7 as `int`, printer iff character 9
   * is `1`, and the indicator and setpoint echo are the bytes of characters
   * 10 and 21..27.
   */
  lemma AsciiDecode(msg: string)
    requires IsAscii(msg) && |msg| == 59
    ensures var t := ParseFloat(msg[0..5]);
      var h := ParseInt(msg[6..8]);
      && (DecodeResponse(msg).Ok? <==> t.Some? && h.Some?)
      && (t.Some? && h.Some? ==>
            DecodeResponse(msg) == Ok(Reading(t.value, h.value, msg[9] == '1',
                                              Encode(msg[10..11]), Encode(msg[21..28]))))
  {
    AsciiSlice(msg, 0, 5);
    AsciiSlice(msg, 6, 8);
    AsciiSlice(msg, 10, 11);
    AsciiSlice(msg, 21, 28);
    AsciiEncoding(msg);
    DecodeOffsets(Encode(msg));
  }

  lemma SampleIsAscii()
    ensures IsAscii(SampleLine) && |SampleLine| == 59
  {
    assert IsAscii(" 18.4F00P1>TEMP-SOLL:");
    assert IsAscii("  42.03");
    assert IsAscii("C  0T-99.9#--T 42.0F00R11100000");
  }

  /** The fields of the sample line, as characters. */
  lemma SampleFields()
    ensures |SampleLine| == 59
    ensures SampleLine[0..5] == " " + ("18" + "." + ['4']) && SampleLine[6..8] == ['0', '0']
    ensures SampleLine[9] == '1' && SampleLine[10..11] == ">"
    ensures SampleLine[21..28] == "  42.03"
  {
    var front := " 18.4F00P1>TEMP-SOLL:";
    var echo := "  42.03";
    assert SampleLine == (front + echo) + "C  0T-99.9#--T 42.0F00R11100000";
    assert (front + echo)[|front|..] == echo;
  }

  // The sample lemmas take their literals as parameters pinned by `requires`,
  // so that the solver does not unfold the parsers on literal arguments.
  lemma SampleDigitsValue(whole: string, last: char)
    requires whole == "18" && last == '4'
    ensures AllDigits(whole + [last]) && DigitsValue(whole + [last]) == 184
  {
    AppendDigit([], whole[0]);
    assert [] + [whole[0]] == [whole[0]];
    AppendDigit([whole[0]], whole[1]);
    assert [whole[0]] + [whole[1]] == whole;
    AppendDigit(whole, last);
  }

  /** `float(b' 18.4')` is 18.4. */
  lemma SampleTemperature(whole: string, last: char)
    requires whole == "18" && last == '4'
    ensures ParseFloat(" " + (whole + "." + [last])) == Some(Finite(false, 184, -1))
  {
    ParseOneDecimal(false, whole, last);
    assert "" + (whole + "." + [last]) == whole + "." + [last];
    ParseFloatSkipsSpace(whole + "." + [last]);
    SampleDigitsValue(whole, last);
  }

  lemma SampleHumidityDigits(zero: char)
    requires zero == '0'
    ensures AllDigits([zero, zero]) && DigitsValue([zero, zero]) == 0
  {
    AppendDigit([], zero);
    assert [] + [zero] == [zero];
    AppendDigit([zero], zero);
    assert [zero] + [zero] == [zero, zero];
  }

  /** `int` of a digit string worth nothing is 0, as for `b'00'`. */
  lemma ParseZeroDigits(digits: string)
    requires digits != [] && AllDigits(digits) && DigitsValue(digits) == 0
    ensures ParseInt(digits) == Some(0)
  {
    ParseSignedDigits(false, digits);
    assert "" + digits == digits;
  }

  /**
   * The documented sample line: 18.4 degrees, humidity 0, printer on,
   * indicator `>` and the echoed setpoint `  42.03`.
   */
  lemma SampleLineReading()
    ensures DecodeResponse(SampleLine)
      == Ok(Reading(Finite(false, 184, -1), 0, true, Encode(">"), Encode("  42.03")))
  {
    SampleIsAscii();
    SampleFields();
    SampleTemperature("18", '4');
    SampleHumidityDigits('0');
    ParseZeroDigits(['0', '0']);
    AsciiDecode(SampleLine);
  }
}
