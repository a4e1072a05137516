/**
 * `makeMessage`'s command text, `"T{:0=-5,.1f}F{}R{:b}"` applied to the
 * temperature setpoint, the humidity setpoint and the digital-channel mask.
 * Temperatures are integer tenths of a degree.
 */
module CommandEncoding {
  import opened Wrappers
  import opened Numerals
  import opened PyNumbers

  function Abs(x: int): nat
  {
    if x < 0 then -x else x
  }

  /** The sign the `-` option writes: a minus for negatives only. */
  function SignText(tenths: int): string
  {
    if tenths < 0 then "-" else ""
  }

  /** Integer part (with `,` grouping), a point and the tenths digit. */
  function UnsignedText(tenths: int): string
  {
    Grouped(Decimal(Abs(tenths) / 10)) + "." + [DigitChar(Abs(tenths) % 10)]
  }

  /** How many zeros the `0=` fill inserts to reach width five. */
  function PadWidth(tenths: int): nat
  {
    var width := |SignText(tenths)| + |UnsignedText(tenths)|;
    if width < 5 then 5 - width else 0
  }

  /**
   * `'{:0=-5,.1f}'.format(tenths / 10)`: zeros are inserted between the sign
   * and the digits until the text is five characters wide.
   */
  function FormatTemperature(tenths: int): string
  {
    SignText(tenths) + Zeros(PadWidth(tenths)) + UnsignedText(tenths)
  }

  /**
   * The temperature text is exactly five wide unless the sign and digits
   * alone are wider; it ends in a point and the tenths digit, starts with
   * `-` exactly for negatives, and the `0=` fill puts zeros (never blanks)
   * between the sign and the digits, and only to reach width five.
   */
  lemma TemperatureTextShape(tenths: int)
    ensures var r := FormatTemperature(tenths);
      var sign := |SignText(tenths)|;
      var natural := sign + |UnsignedText(tenths)|;
      && |r| == (if natural < 5 then 5 else natural)
      && (r[0] == '-') == (tenths < 0)
      && (forall k :: sign <= k < sign + PadWidth(tenths) ==> r[k] == '0')
      && r[sign + PadWidth(tenths)..] == UnsignedText(tenths)
      && r[|r| - 2] == '.' && IsDigit(r[|r| - 1]) && DigitValue(r[|r| - 1]) == Abs(tenths) % 10
      && (|r| > 5 ==> r[sign] != '0')
  {
    var sign := SignText(tenths);
    var whole := Grouped(Decimal(Abs(tenths) / 10));
    var body := UnsignedText(tenths);
    var r := FormatTemperature(tenths);
    GroupedStartsWithDigit(Decimal(Abs(tenths) / 10));
    assert body == whole + "." + [DigitChar(Abs(tenths) % 10)];
    assert r[|r| - 2] == '.' && r[|r| - 1] == DigitChar(Abs(tenths) % 10);
    if tenths >= 0 {
      assert PadWidth(tenths) > 0 ==> r[0] == '0';
      assert PadWidth(tenths) == 0 ==> r[0] == whole[0];
    }
    if |r| > 5 && Abs(tenths) >= 10 {
      assert r[|sign|] == whole[0];
      DecimalNoLeadingZero(Abs(tenths) / 10);
    }
  }

  lemma {:induction false} GroupedStartsWithDigit(s: string)
    requires |s| >= 1 && AllDigits(s)
    ensures |Grouped(s)| >= 1 && Grouped(s)[0] == s[0]
    decreases |s|
  {
    if |s| > 3 {
      GroupedStartsWithDigit(s[..|s| - 3]);
    }
  }

  /** `'{}'.format(h)` for an integer humidity: `str(h)`, a minus for negatives, then digits. */
  function FormatHumidity(h: int): (r: string)
    ensures |r| > |SignText(h)| && (r[0] == '-') == (h < 0)
    ensures AllDigits(r[|SignText(h)|..])
  {
    SignText(h) + Decimal(Abs(h))
  }

  /** `'{:b}'.format(mask)`: binary digits, worth the mask by `BinaryRoundTrip`. */
  function FormatMask(mask: nat): (r: string)
    ensures |r| >= 1 && AllBinary(r)
  {
    Binary(mask)
  }

  /** The command `makeMessage` hands to the instrument. */
  function Command(tenths: int, humidity: int, mask: nat): string
  {
    "T" + FormatTemperature(tenths) + "F" + FormatHumidity(humidity) + "R" + FormatMask(mask)
  }

  /** The three setpoint fields a command carries. */
  datatype Setpoints = Setpoints(tenths: int, humidity: int, mask: nat)

  function ParseBinary(s: string): Option<nat>
  {
    if s != [] && AllBinary(s) then Some(BinaryValue(s)) else None
  }

  /**
   * A reader of command texts: the fields between `T`, `F` and `R`, the
   * temperature read back by `float` with exactly one decimal.
   */
  function ParseCommand(s: string): Option<Setpoints>
  {
    var f := FirstIndex(s, 'F');
    var r := FirstIndex(s, 'R');
    if |s| == 0 || s[0] != 'T' || !(1 <= f < r < |s|) then None
    else
      ParseFields(s[1..f], s[f + 1..r], s[r + 1..])
  }

  /** The three field texts of a command, each read back on its own. */
  function ParseFields(t: string, h: string, m: string): Option<Setpoints>
  {
    var temperature := ParseFloat(t);
    var humidity := ParseInt(h);
    var mask := ParseBinary(m);
    if temperature.Some? && temperature.value.Finite? && temperature.value.exponent == -1
       && humidity.Some? && mask.Some?
    then Some(Setpoints(Signed(temperature.value.negative, temperature.value.digits), humidity.value, mask.value))
    else None
  }

  // ---------------------------------------------------------------------------
  // Round trips

  /** Below 1000.0 degrees the text has no `,` and is a plain decimal. */
  lemma TemperatureTextBelowThousand(tenths: int)
    requires Abs(tenths) < 10000
    ensures FormatTemperature(tenths)
        == SignText(tenths) + Zeros(PadWidth(tenths)) + Decimal(Abs(tenths) / 10) + "." + [DigitChar(Abs(tenths) % 10)]
  {
    DecimalLength(Abs(tenths) / 10, 3);
  }

  /** From 1000.0 degrees on, the `,` option inserts a separator. */
  lemma TemperatureGroupsFromThousand(tenths: int)
    requires Abs(tenths) >= 10000
    ensures ',' in FormatTemperature(tenths)
  {
    DecimalLength(Abs(tenths) / 10, 3);
    var g := Grouped(Decimal(Abs(tenths) / 10));
    var k :| 0 <= k < |g| && g[k] == ',';
    assert FormatTemperature(tenths)[|SignText(tenths)| + PadWidth(tenths) + k] == ',';
  }

  /**
   * Below 1000.0 degrees the text is a sign, then digits whose value with
   * the last one appended is the setpoint in tenths.
   */
  lemma TemperatureTextParts(tenths: int) returns (whole: string, last: char)
    requires Abs(tenths) < 10000
    ensures whole != [] && AllDigits(whole) && IsDigit(last)
    ensures FormatTemperature(tenths) == (if tenths < 0 then "-" else "") + (whole + "." + [last])
    ensures DigitsValue(whole + [last]) == Abs(tenths)
  {
    TemperatureTextBelowThousand(tenths);
    var q := Abs(tenths) / 10;
    var pad := PadWidth(tenths);
    whole := Zeros(pad) + Decimal(q);
    last := DigitChar(Abs(tenths) % 10);
    assert SignText(tenths) + Zeros(pad) + Decimal(q) + "." + [last]
      == SignText(tenths) + (whole + "." + [last]);
    PaddedTenthsValue(pad, q, Abs(tenths) % 10);
  }

  lemma PaddedTenthsValue(pad: nat, q: nat, d: nat)
    requires d < 10
    ensures AllDigits(Zeros(pad) + Decimal(q))
    ensures DigitsValue(Zeros(pad) + Decimal(q) + [DigitChar(d)]) == 10 * q + d
  {
    LeadingZerosValue(pad, Decimal(q));
    DecimalValue(q);
    AppendDigit(Zeros(pad) + Decimal(q), DigitChar(d));
  }

  /** Re-reading the temperature text with `float` gives back the setpoint. */
  lemma TemperatureRoundTrip(tenths: int)
    requires Abs(tenths) < 10000
    ensures ParseFloat(FormatTemperature(tenths)) == Some(Finite(tenths < 0, Abs(tenths), -1))
  {
    var whole, last := TemperatureTextParts(tenths);
    ParseOneDecimal(tenths < 0, whole, last);
  }

  /** Re-reading the humidity text with `int` gives back the setpoint. */
  lemma HumidityRoundTrip(h: int)
    ensures ParseInt(FormatHumidity(h)) == Some(h)
  {
    ParseSignedDigits(h < 0, Decimal(Abs(h)));
    DecimalValue(Abs(h));
  }

  /** The markers `F` and `R` split a command into its three fields. */
  lemma CommandFields(t: string, h: string, m: string)
    requires 'F' !in t && 'R' !in t && 'R' !in h
    ensures var s := "T" + t + "F" + h + "R" + m;
      FirstIndex(s, 'F') == 1 + |t| && FirstIndex(s, 'R') == 2 + |t| + |h|
      && s[1..1 + |t|] == t && s[2 + |t|..2 + |t| + |h|] == h && s[3 + |t| + |h|..] == m
  {
    var s := "T" + t + "F" + h + "R" + m;
    assert 'F' !in "T" + t && 'R' !in "T" + t + "F" + h;
    assert s == ("T" + t) + ("F" + h + "R" + m);
    FirstIndexPast("T" + t, "F" + h + "R" + m, 'F');
    assert s == ("T" + t + "F" + h) + ("R" + m);
    FirstIndexPast("T" + t + "F" + h, "R" + m, 'R');
  }

  lemma ParseCommandSplits(t: string, h: string, m: string)
    requires 'F' !in t && 'R' !in t && 'R' !in h
    ensures ParseCommand("T" + t + "F" + h + "R" + m) == ParseFields(t, h, m)
  {
    var s := "T" + t + "F" + h + "R" + m;
    CommandFields(t, h, m);
    var f := FirstIndex(s, 'F');
    var r := FirstIndex(s, 'R');
    assert s[1..f] == t && s[f + 1..r] == h && s[r + 1..] == m;
    assert |s| > 0 && s[0] == 'T' && 1 <= f < r < |s|;
  }

  lemma ParseFieldsOf(t: string, h: string, m: string, reading: Setpoints)
    requires ParseFloat(t) == Some(Finite(reading.tenths < 0, Abs(reading.tenths), -1))
    requires ParseInt(h) == Some(reading.humidity)
    requires ParseBinary(m) == Some(reading.mask)
    ensures ParseFields(t, h, m) == Some(reading)
  {
    assert Signed(reading.tenths < 0, Abs(reading.tenths)) == reading.tenths;
  }

  lemma NoMarkersInFields(tenths: int, humidity: int)
    requires Abs(tenths) < 10000
    ensures 'F' !in FormatTemperature(tenths) && 'R' !in FormatTemperature(tenths)
    ensures 'R' !in FormatHumidity(humidity)
  {
    var whole, last := TemperatureTextParts(tenths);
    NoSpecialChars(whole);
    NoSpecialChars(Decimal(Abs(humidity)));
  }

  /** A command determines the three setpoints it was built from. */
  lemma CommandRoundTrip(tenths: int, humidity: int, mask: nat)
    requires Abs(tenths) < 10000
    ensures ParseCommand(Command(tenths, humidity, mask)) == Some(Setpoints(tenths, humidity, mask))
  {
    var t := FormatTemperature(tenths);
    var h := FormatHumidity(humidity);
    var m := FormatMask(mask);
    NoMarkersInFields(tenths, humidity);
    TemperatureRoundTrip(tenths);
    HumidityRoundTrip(humidity);
    BinaryRoundTrip(mask);
    ParseCommandSplits(t, h, m);
    ParseFieldsOf(t, h, m, Setpoints(tenths, humidity, mask));
  }

  /** With the class defaults (25.0, 0, 0x00) the command is `T025.0F0R0`. */
  lemma DefaultCommand()
    ensures Command(250, 0, 0) == "T025.0F0R0"
  {
    TwentyFiveDegrees();
    assert FormatHumidity(0) == "0";
    assert FormatMask(0) == "0";
    assert Command(250, 0, 0) == "T" + "025.0" + "F" + "0" + "R" + "0";
  }

  lemma TwentyFiveDegrees()
    ensures FormatTemperature(250) == "025.0"
  {
    assert Decimal(25) == Decimal(2) + "5" == "25";
    assert UnsignedText(250) == "25.0";
    assert Zeros(1) == "0";
  }

  /** Minus five degrees is padded after its sign: `T-05.0F0R0`. */
  lemma NegativeCommand()
    ensures Command(-50, 0, 0) == "T-05.0F0R0"
  {
    assert Decimal(5) == "5";
    assert UnsignedText(-50) == "5.0";
    assert Zeros(1) == "0";
    assert FormatTemperature(-50) == "-05.0";
    assert FormatHumidity(0) == "0";
    assert FormatMask(0) == "0";
  }

  /** The mask is written without leading zeros: 0xE0 gives `R11100000`. */
  lemma MaskCommand()
    ensures Command(250, 0, 0xE0) == "T025.0F0R11100000"
  {
    TwentyFiveDegrees();
    assert FormatHumidity(0) == "0";
    MaskE0();
    assert Command(250, 0, 0xE0) == "T" + "025.0" + "F" + "0" + "R" + "11100000";
  }

  lemma MaskE0()
    ensures FormatMask(0xE0) == "11100000"
  {
    assert Binary(1) == "1";
    assert Binary(3) == "11";
    assert Binary(7) == "111";
    assert Binary(14) == "1110";
    assert Binary(28) == "11100";
    assert Binary(56) == "111000";
    assert Binary(112) == "1110000";
    assert Binary(224) == "11100000";
  }
}
