# Weiss Technik 260SB climate chamber: message codec

A Dafny model of the message codec in pymeasure's driver for the Weiss
Technik 260SB climate chamber with Prodicon controller. The driver keeps
a temperature setpoint, a humidity setpoint and an 8-bit mask of digital
channels. It sends them to the controller as one command text,
`T<temperature>F<humidity>R<mask>`. It then cuts the controller's 59-byte
status line into fixed-width fields and stores the measured temperature,
the measured humidity, the printer status, the heating/cooling indicator
and the echoed setpoint.

Modules, in dependency order:

- `Wrappers`: `Option` and `Result`.
- `DigitalChannels`: the eight `DigitalState` flags, and Python's `|` and `&`
  on unbounded non-negative integers, defined bit by bit. `SetFlag` and
  `ClearFlag` are the two branches of `setDigitalState`.
- `Numerals`: decimal digit strings (`str` of an integer), thousands
  grouping with `,`, and binary digit strings (`'{:b}'`).
- `PyNumbers`: what `float(b)` and `int(b)` accept and return for a
  `bytes` field. Surrounding ASCII whitespace is stripped. An underscore
  is allowed only between digits. The sign is optional. For `float`, the
  words `inf`, `infinity` and `nan` are accepted in any case. A float is
  kept as the literal's own sign, digit value and decimal exponent
  (`FloatValue`), without normalisation and without binary rounding. So
  `b'18.40'` and `b' 18.4'` give different values (1840 times 10^-2 and
  184 times 10^-1), where Python gives the same float.
- `CommandEncoding`: `"T{:0=-5,.1f}F{}R{:b}"`, with the temperature in
  integer tenths of a degree. It also has a reader for command texts,
  used to prove the round trip.
- `Utf8`: `bytes(msg, 'utf-8')`, and reading bytes back as text.
- `StructLayout`: `struct.unpack` for formats made of `Ns` and `Nx` items,
  `struct.calcsize`, `struct.pack` (the inverse used in
  `PackUnpackRoundTrip`), and the status-line format
  `'5s 1x 2s 1x 1s 1s 10x 7s 1x 3s 1x 5s 21x'`.
- `ResponseDecoding`: the status-line decode (`DecodeResponse`). The reply
  text is encoded, unpacked, and then converted in the driver's order.
- `Chamber260SB`: the driver object as a class, `Chamber`. It has the
  setpoint fields and the reading attributes, and the methods
  `SetDigitalState`, `MakeMessage` and `ParseResponse`. The instrument's
  reply is a parameter.

How the driver behaves, as modelled:

- Clearing a channel computes `mask & (0xFF - flag)`. The result is always
  a byte, whatever the mask was before. Setting computes `mask | flag`.
  It stays a byte when the mask was one. The class invariant `Valid`
  keeps the mask a byte.
- Setting and then clearing a channel gives the same mask as clearing
  alone. It gives back the original mask only when that mask was a byte
  whose bit for the channel was clear (`SetThenClearRestores`).
- The temperature text is zero-padded after the sign to five characters:
  the `0=` fill writes zeros, not blanks, so 25.0 becomes `025.0` and -5.0
  becomes `-05.0`. The `,` option groups the integer part from 1000.0
  degrees up, and `float` does not accept such a text back. The round
  trip is therefore proved below 1000.0 degrees. It is also proved that
  the grouping does appear from 1000.0 degrees up.
- The mask is written in binary without leading zeros: `0` for 0 and
  `11100000` for 0xE0. The defaults give the command `T025.0F0R0`, and
  -5.0 with humidity 0 and mask 0 gives `T-05.0F0R0`.
- The status line must be exactly 59 bytes once encoded. A reply of 59
  characters that holds a non-ASCII character is therefore refused.
- On a 59-byte line, the five stored values come from these byte offsets:
  0..4 (`float`), 6..7 (`int`), 9 (printer on iff it is `1`), 10 (the
  indicator, verbatim) and 21..27 (the echoed setpoint, verbatim). The
  echoed setpoint `set_temp` is `fields[4]`, the 7-byte field, so it holds
  `  42.03` for the sample line, trailing digit included.
- The driver assigns `is_temp` before it converts the humidity. So when
  `int` rejects the humidity field, the new temperature is already stored
  and nothing else changes. When `float` rejects the temperature, or the
  length is wrong, nothing is stored. The model reproduces this.
- The sample status line in the source decodes to 18.4 degrees, humidity
  0, printer on, indicator `>` and echoed setpoint `  42.03`.

## Model

| member | source | states |
|---|---|---|
| `DigitalChannels.Value` | pymeasure/instruments/weisstechnik/260sb.py:29-37 | each flag's value is 2 to the power of its bit position, from 7 for CHAMBER_ENABLE down to 0 for CHANNEL_4, so 0x80 down to 0x01 |
| `DigitalChannels.FlagsDisjoint` | pymeasure/instruments/weisstechnik/260sb.py:29-37 | two different flags have no bit in common |
| `DigitalChannels.FlagsCoverByte` | pymeasure/instruments/weisstechnik/260sb.py:29-37 | the union of the eight flags is 0xFF |
| `DigitalChannels.Or` | pymeasure/instruments/weisstechnik/260sb.py:65 | Python's `\|` on non-negative integers: the result is at least each operand and at most their sum. `BitOfOr` gives its bits |
| `DigitalChannels.And` | pymeasure/instruments/weisstechnik/260sb.py:67 | Python's `&` on non-negative integers: the result is at most each operand. `BitOfAnd` gives its bits |
| `DigitalChannels.SetFlag` | pymeasure/instruments/weisstechnik/260sb.py:64-65 | `digital_state \| channel`: the mask never decreases and grows by at most the flag's value. `SetFlagBits` gives its exact bits |
| `DigitalChannels.ClearFlag` | pymeasure/instruments/weisstechnik/260sb.py:66-67 | `digital_state & (0xFF - channel)`: the result is at most the old mask and at most `0xFF - channel`, so always a byte. `ClearFlagBits` gives its exact bits |
| `DigitalChannels.BitOfOr` | pymeasure/instruments/weisstechnik/260sb.py:65 | a bit of `a \| b` is set iff it is set in `a` or in `b` |
| `DigitalChannels.BitOfAnd` | pymeasure/instruments/weisstechnik/260sb.py:67 | a bit of `a & b` is set iff it is set in both |
| `DigitalChannels.SubtractionComplements` | pymeasure/instruments/weisstechnik/260sb.py:67 | for `n < 2^w`, `2^w - 1 - n` has exactly the bits below `w` that `n` lacks |
| `DigitalChannels.ComplementOfFlag` | pymeasure/instruments/weisstechnik/260sb.py:67 | `0xFF - channel` has exactly the bits 0..7 other than the channel's, so it is the channel's 8-bit complement |
| `DigitalChannels.SetFlagBits` | pymeasure/instruments/weisstechnik/260sb.py:64-65 | after setting, the channel's bit is 1 and every other bit is as before |
| `DigitalChannels.ClearFlagBits` | pymeasure/instruments/weisstechnik/260sb.py:66-67 | after clearing, the channel's bit is 0, the other bits below 8 are as before, and no bit from 8 up remains |
| `DigitalChannels.FlagsKeepByteRange` | pymeasure/instruments/weisstechnik/260sb.py:63-67 | clearing always gives a value within 0..0xFF; setting does so whenever the mask was within 0..0xFF |
| `DigitalChannels.SetFlagIdempotent` | pymeasure/instruments/weisstechnik/260sb.py:64-65 | setting a channel twice gives the same mask as setting it once |
| `DigitalChannels.ClearFlagIdempotent` | pymeasure/instruments/weisstechnik/260sb.py:66-67 | clearing a channel twice gives the same mask as clearing it once |
| `DigitalChannels.ClearAfterSet` | pymeasure/instruments/weisstechnik/260sb.py:63-67 | clearing after setting gives the same mask as clearing alone |
| `DigitalChannels.SetThenClearRestores` | pymeasure/instruments/weisstechnik/260sb.py:63-67 | setting then clearing a channel gives back the original mask iff that mask is a byte whose bit for the channel was clear |
| `Numerals.Decimal` | pymeasure/instruments/weisstechnik/260sb.py:71 | `str(n)` for `n >= 0`: a non-empty digit string. `DecimalValue`, `DecimalNoLeadingZero` and `DecimalLength` give its value, first digit and length |
| `Numerals.DecimalValue` | pymeasure/instruments/weisstechnik/260sb.py:71 | the digits `str` writes for a natural number are worth that number |
| `Numerals.DecimalNoLeadingZero` | pymeasure/instruments/weisstechnik/260sb.py:71 | the decimal text starts with `0` only for zero |
| `Numerals.DecimalLength` | pymeasure/instruments/weisstechnik/260sb.py:71 | the decimal text has at most `k` digits iff the number is below `10^k` |
| `Numerals.LeadingZerosValue` | pymeasure/instruments/weisstechnik/260sb.py:71 | zeros put in front of a digit string do not change its value |
| `Numerals.Binary` | pymeasure/instruments/weisstechnik/260sb.py:71 | `'{:b}'` of a mask: a non-empty string of `0` and `1`. `BinaryRoundTrip`, `BinaryDigitsAreBits` and `BinaryNoLeadingZero` give its value, bits and first digit |
| `Numerals.BinaryRoundTrip` | pymeasure/instruments/weisstechnik/260sb.py:71 | the `'{:b}'` digits read in base 2 give back the mask |
| `Numerals.BinaryDigitsAreBits` | pymeasure/instruments/weisstechnik/260sb.py:71 | the i-th binary digit from the right is `1` iff bit i of the mask is set, and no set bit lies beyond the digits |
| `Numerals.BinaryNoLeadingZero` | pymeasure/instruments/weisstechnik/260sb.py:71 | the binary text starts with `1`, or it is exactly `0` for the mask 0 |
| `Numerals.BinaryOfByte` | pymeasure/instruments/weisstechnik/260sb.py:71 | a mask below `2^k` is written in at most `k` binary digits, so at most 8 digits for a byte |
| `Numerals.Grouped` | pymeasure/instruments/weisstechnik/260sb.py:71 | the `,` option leaves up to three digits alone and puts a `,` into longer ones |
| `PyNumbers.ParseFloat` | pymeasure/instruments/weisstechnik/260sb.py:83 | `float(b)` on a bytes field: `None` where Python raises `ValueError`. Its contract is stated by `ParseOneDecimal`, `ParseFloatSkipsSpace` and `TemperatureRoundTrip` |
| `PyNumbers.ParseInt` | pymeasure/instruments/weisstechnik/260sb.py:84 | `int(b)` on a bytes field: `None` where Python raises `ValueError`. Its contract is stated by `ParseSignedDigits` and `HumidityRoundTrip` |
| `PyNumbers.ParseOneDecimal` | pymeasure/instruments/weisstechnik/260sb.py:83 | `float` reads `[-]digits.d` as the digits with `d` appended, times 10^-1, with the given sign |
| `PyNumbers.ParseSignedDigits` | pymeasure/instruments/weisstechnik/260sb.py:84 | `int` reads `[-]digits` as the signed value of the digits |
| `PyNumbers.ParseFloatSkipsSpace` | pymeasure/instruments/weisstechnik/260sb.py:83 | a leading blank does not change what `float` reads |
| `CommandEncoding.FormatTemperature` | pymeasure/instruments/weisstechnik/260sb.py:71 | `'{:0=-5,.1f}'` of the setpoint in tenths. `TemperatureTextShape`, `TemperatureRoundTrip` and `TemperatureGroupsFromThousand` state its width, fill, digits and value |
| `CommandEncoding.FormatHumidity` | pymeasure/instruments/weisstechnik/260sb.py:71 | `'{}'` of the humidity: a minus exactly for negatives, then at least one digit. `HumidityRoundTrip` gives its value |
| `CommandEncoding.FormatMask` | pymeasure/instruments/weisstechnik/260sb.py:71 | `'{:b}'` of the mask: a non-empty string of binary digits. `BinaryRoundTrip` gives its value |
| `CommandEncoding.Command` | pymeasure/instruments/weisstechnik/260sb.py:71 | the text `makeMessage` hands to `ask`. `CommandRoundTrip` states that the temperature, humidity and mask are read back from it, and `DefaultCommand`, `NegativeCommand` and `MaskCommand` give concrete texts |
| `CommandEncoding.TemperatureTextShape` | pymeasure/instruments/weisstechnik/260sb.py:71 | the text is exactly five characters wide unless the sign and digits alone are wider. It starts with `-` exactly for negatives. Between the sign and the digits it holds only `0` fill, never blanks, and only as much as reaches width five. It ends in a point and the tenths digit, and a text wider than five does not start its digits with `0` |
| `CommandEncoding.TemperatureGroupsFromThousand` | pymeasure/instruments/weisstechnik/260sb.py:71 | from 1000.0 degrees in magnitude the temperature text contains a `,` |
| `CommandEncoding.TemperatureRoundTrip` | pymeasure/instruments/weisstechnik/260sb.py:71 | below 1000.0 degrees, `float` of the temperature text gives back the setpoint's sign and tenths |
| `CommandEncoding.HumidityRoundTrip` | pymeasure/instruments/weisstechnik/260sb.py:71 | `int` of the humidity text gives back the humidity setpoint |
| `CommandEncoding.CommandRoundTrip` | pymeasure/instruments/weisstechnik/260sb.py:71 | below 1000.0 degrees, splitting the command at `T`, `F` and `R` and reading the three fields back gives the temperature, the humidity and the mask |
| `CommandEncoding.DefaultCommand` | pymeasure/instruments/weisstechnik/260sb.py:45-47 | the class defaults 25.0, 0 and 0x00 give the command `T025.0F0R0` |
| `CommandEncoding.NegativeCommand` | pymeasure/instruments/weisstechnik/260sb.py:71 | -5.0 with humidity 0 and mask 0 gives `T-05.0F0R0` |
| `CommandEncoding.MaskCommand` | pymeasure/instruments/weisstechnik/260sb.py:71 | mask 0xE0 is written `11100000`, giving `T025.0F0R11100000` |
| `Utf8.Encode` | pymeasure/instruments/weisstechnik/260sb.py:81 | `bytes(msg, 'utf-8')`: each character's encoding in order. `EncodeLength`, `AsciiEncoding` and `AsciiRoundTrip` state its length and its ASCII case |
| `Utf8.EncodeChar` | pymeasure/instruments/weisstechnik/260sb.py:81 | a character encodes to 1 to 4 bytes: one byte, equal to its code, iff it is ASCII; otherwise a lead byte from 0xC0 up and continuation bytes 0x80..0xBF |
| `Utf8.EncodeLength` | pymeasure/instruments/weisstechnik/260sb.py:81 | the encoded reply is never shorter than the text, and is as long iff the text is ASCII |
| `Utf8.AsciiEncoding` | pymeasure/instruments/weisstechnik/260sb.py:81 | an ASCII text encodes byte for byte to its character codes |
| `Utf8.AsciiRoundTrip` | pymeasure/instruments/weisstechnik/260sb.py:81 | reading the bytes of an ASCII text back as characters gives the text |
| `StructLayout.Unpack` | pymeasure/instruments/weisstechnik/260sb.py:81 | unpacking succeeds iff the buffer is exactly `calcsize` long, and then yields one field per `s` item, each as wide as its item |
| `StructLayout.PackUnpackRoundTrip` | pymeasure/instruments/weisstechnik/260sb.py:81 | unpacking what `pack` wrote from fields of the right widths gives back those fields |
| `StructLayout.ResponseSize` | pymeasure/instruments/weisstechnik/260sb.py:78 | the status-line format is 59 bytes long |
| `StructLayout.ResponseFieldWidths` | pymeasure/instruments/weisstechnik/260sb.py:78 | the status-line format yields seven fields of widths 5, 2, 1, 1, 7, 3 and 5 |
| `StructLayout.ResponseFields` | pymeasure/instruments/weisstechnik/260sb.py:78-81 | a 59-byte line unpacks to the bytes at 0..4, 6..7, 9, 10, 21..27, 29..31 and 33..37 |
| `ResponseDecoding.DecodeResponse` | pymeasure/instruments/weisstechnik/260sb.py:80-87 | the body of the `try` in `parseResponse`: encode the reply, unpack it and convert the fields. `DecodeLength`, `DecodeOffsets`, `AsciiDecode` and `SampleLineReading` state its outcome |
| `ResponseDecoding.DecodeBytes` | pymeasure/instruments/weisstechnik/260sb.py:81-87 | the decode from the encoded bytes. `DecodeLength` and `DecodeOffsets` state when it fails and what it yields |
| `ResponseDecoding.ConvertFields` | pymeasure/instruments/weisstechnik/260sb.py:83-87 | the conversions of lines 83-87 in their order. `ConvertCases` states its outcome for each combination of `float` and `int` accepting or rejecting |
| `ResponseDecoding.DecodeLength` | pymeasure/instruments/weisstechnik/260sb.py:80-81 | decoding fails in the layout iff the line is not 59 bytes, with the expected and the actual size |
| `ResponseDecoding.DecodeOffsets` | pymeasure/instruments/weisstechnik/260sb.py:81-87 | on a 59-byte line the decode succeeds iff `float` accepts bytes 0..4 and `int` accepts bytes 6..7. It then yields those values, printer on iff byte 9 is `1`, byte 10, and bytes 21..27. Otherwise it fails at the first conversion that rejects its field |
| `ResponseDecoding.PrinterByte` | pymeasure/instruments/weisstechnik/260sb.py:85 | the printer field equals `b'1'` iff byte 9 is `1` |
| `ResponseDecoding.NonAsciiRefused` | pymeasure/instruments/weisstechnik/260sb.py:81 | a 59-character reply holding a non-ASCII character is refused by the layout |
| `ResponseDecoding.AsciiSlice` | pymeasure/instruments/weisstechnik/260sb.py:81 | for an ASCII reply, a byte range is the encoding of the same character range and reads back as it |
| `ResponseDecoding.AsciiDecode` | pymeasure/instruments/weisstechnik/260sb.py:81-87 | a 59-character ASCII reply decodes from its character positions 0..4, 6..7, 9, 10 and 21..27 |
| `ResponseDecoding.SampleTemperature` | pymeasure/instruments/weisstechnik/260sb.py:83 | `float(b' 18.4')` is 18.4 |
| `ResponseDecoding.ParseZeroDigits` | pymeasure/instruments/weisstechnik/260sb.py:84 | `int` of a digit string worth zero, such as `b'00'`, is 0 |
| `ResponseDecoding.SampleLineReading` | pymeasure/instruments/weisstechnik/260sb.py:76-87 | the sample status line decodes to 18.4, 0, printer on, `>` and `  42.03` |
| `Chamber260SB.AfterDecode` | pymeasure/instruments/weisstechnik/260sb.py:83-87 | the reading attributes after a decode, as `ParseResponse` leaves them. `WrongLengthKeepsReading`, `DecodedReading`, `PartialUpdate`, `BadTemperatureKeepsReading` and `DecodeTwice` state what it keeps and what it sets |
| `Chamber260SB.WrongLengthKeepsReading` | pymeasure/instruments/weisstechnik/260sb.py:80-81 | a reply that is not 59 bytes leaves every reading attribute as it was |
| `Chamber260SB.DecodedReading` | pymeasure/instruments/weisstechnik/260sb.py:83-87 | a successful decode sets `is_temp`, `is_hum`, `printer_stat`, `indicator` and `set_temp` from their byte offsets |
| `Chamber260SB.PartialUpdate` | pymeasure/instruments/weisstechnik/260sb.py:83-84 | when `float` accepts the temperature and `int` rejects the humidity, only `is_temp` changes |
| `Chamber260SB.BadTemperatureKeepsReading` | pymeasure/instruments/weisstechnik/260sb.py:83 | when `float` rejects the temperature, no attribute changes |
| `Chamber260SB.DecodeTwice` | pymeasure/instruments/weisstechnik/260sb.py:83-87 | storing the same decode twice leaves what storing it once leaves |
| `Chamber260SB.SampleStored` | pymeasure/instruments/weisstechnik/260sb.py:76-87 | the sample line stores 18.4, 0, printer on, `>` and `  42.03` |
| `Chamber260SB.Chamber.constructor` | pymeasure/instruments/weisstechnik/260sb.py:45-48 | a new chamber has setpoint 25.0 degrees, humidity 0, mask 0x00, printer off and no reading yet |
| `Chamber260SB.Chamber.SetDigitalState` | pymeasure/instruments/weisstechnik/260sb.py:63-68 | `value` defaults to `false` as in the source. The mask is ORed with the channel or ANDed with `0xFF - channel`. The channel's bit becomes `value`, every other bit and the byte range are kept, and the command and the decode of the reply then follow as in `MakeMessage` |
| `Chamber260SB.Chamber.MakeMessage` | pymeasure/instruments/weisstechnik/260sb.py:70-72 | the command is built from the current setpoints and mask; the reply's decode is stored; the setpoints and mask are unchanged |
| `Chamber260SB.Chamber.ParseResponse` | pymeasure/instruments/weisstechnik/260sb.py:74-87 | the outcome is the decode of the reply and the attributes are updated as that decode says. A reply of the wrong length changes nothing, and the setpoints and mask are never touched |
| `Chamber260SB.Chamber.AssignFields` | pymeasure/instruments/weisstechnik/260sb.py:83-87 | all five attributes are assigned on success, only `is_temp` when the humidity fails, none otherwise |

## Left out

- `pymeasure/instruments/rohdeschwarz/escs30.py` is not part of this model. It holds only property descriptors and static tables whose behaviour lives in the pymeasure base class.
- `self.ask`, the instrument I/O in `makeMessage`. The command is returned and the reply is a parameter, so the reply does not depend on the command.
- The `print` calls and the bare `except` in `parseResponse`. Line 92 names undefined variables, so the success path raises `NameError` after the assignments. The handler then raises `AttributeError`, because `struct.err` does not exist. The model returns an explicit error value and keeps exactly the assignments made before the failure.
- `setTemperature` and `setHumidity`: they are empty stubs.
- A lone surrogate in the reply makes `bytes(msg, 'utf-8')` raise `UnicodeEncodeError`. A Dafny `string` cannot hold a lone surrogate, so this error path is not modelled.
- The constructor's call into the `Instrument` base class and its resource name.
- CommandEncoding.TemperatureRoundTrip: proved only below 1000.0 degrees in magnitude. From there the `,` option groups the digits and `float` refuses the text (`TemperatureGroupsFromThousand`).
- CommandEncoding.CommandRoundTrip: proved only below 1000.0 degrees in magnitude, for the same reason.
- Binary floating point. Setpoints are integer tenths of a degree, and decoded temperatures keep the literal's sign, digits and decimal exponent. The rounding of `.1f` and of `float`, and overflow to infinity, are not modelled.
- `float` and `int` accept Unicode digits and Unicode whitespace in `str`. The fields here are `bytes`, which are read as ASCII, so only that case is modelled.
- The `channel` argument is a `DigitalState` value. In the source, `|` between an `int` and an `Enum` member raises `TypeError`; the model uses the flag's value, as the code evidently intends.
- The invalid Python of the file (the class name `260SB`, methods without `self`, mixed indentation). The methods are modelled as instance methods.
