/**
 * The 260SB driver object: the setpoints it sends, the digital-channel
 * mask, and the reading it keeps from the last status line. The
 * instrument's reply is a parameter; sending the command is left to the
 * caller.
 */
module Chamber260SB {
  import opened Wrappers
  import opened Utf8
  import opened PyNumbers
  import opened DigitalChannels
  import opened CommandEncoding
  import opened StructLayout
  import opened ResponseDecoding

  /**
   * The reading attributes of the driver. `None` stands for an attribute
   * no decode has assigned yet; `printer_stat` has the class default `False`.
   */
  datatype Stored = Stored(
    isTemp: Option<FloatValue>,
    isHum: Option<int>,
    printerStat: bool,
    indicator: Option<seq<byte>>,
    setTemp: Option<seq<byte>>)

  /**
   * The attributes after a decode: all five on success; on a humidity
   * that `int` rejects only `is_temp`, which was assigned first; otherwise
   * none.
   */
  function AfterDecode(before: Stored, outcome: Result<Reading, DecodeError>): Stored
  {
    match outcome
    case Ok(r) => Stored(Some(r.temperature), Some(r.humidity), r.printer, Some(r.indicator), Some(r.setpointEcho))
    case Err(BadHumidity(t, _)) => before.(isTemp := Some(t))
    case Err(_) => before
  }

  /** A reply that is not 59 bytes leaves every attribute as it was. */
  lemma WrongLengthKeepsReading(before: Stored, msg: string)
    requires |Encode(msg)| != 59
    ensures AfterDecode(before, DecodeResponse(msg)) == before
  {
    DecodeLength(Encode(msg));
  }

  /** A 59-byte reply that decodes sets each attribute from its offset. */
  lemma DecodedReading(before: Stored, msg: string)
    requires |Encode(msg)| == 59 && DecodeResponse(msg).Ok?
    ensures var b := Encode(msg);
      var after := AfterDecode(before, DecodeResponse(msg));
      && after.isTemp == ParseFloat(AsText(b[0..5]))
      && after.isHum == ParseInt(AsText(b[6..8]))
      && after.printerStat == (b[9] == PrinterOn)
      && after.indicator == Some(b[10..11])
      && after.setTemp == Some(b[21..28])
  {
    DecodeOffsets(Encode(msg));
  }

  /**
   * A 59-byte reply whose temperature converts but whose humidity does not
   * leaves the new temperature behind and nothing else.
   */
  lemma PartialUpdate(before: Stored, msg: string)
    requires |Encode(msg)| == 59
    requires ParseFloat(AsText(Encode(msg)[0..5])).Some? && ParseInt(AsText(Encode(msg)[6..8])).None?
    ensures AfterDecode(before, DecodeResponse(msg))
      == before.(isTemp := ParseFloat(AsText(Encode(msg)[0..5])))
  {
    DecodeOffsets(Encode(msg));
  }

  /** A 59-byte reply whose temperature does not convert changes nothing. */
  lemma BadTemperatureKeepsReading(before: Stored, msg: string)
    requires |Encode(msg)| == 59 && ParseFloat(AsText(Encode(msg)[0..5])).None?
    ensures AfterDecode(before, DecodeResponse(msg)) == before
  {
    DecodeOffsets(Encode(msg));
  }

  /** Decoding the same reply twice leaves what decoding it once leaves. */
  lemma DecodeTwice(before: Stored, outcome: Result<Reading, DecodeError>)
    ensures AfterDecode(AfterDecode(before, outcome), outcome) == AfterDecode(before, outcome)
  {
  }

  /** The documented sample line stores 18.4, 0, printer on, `>` and `  42.03`. */
  lemma SampleStored(before: Stored)
    ensures AfterDecode(before, DecodeResponse(SampleLine))
      == Stored(Some(Finite(false, 184, -1)), Some(0), true, Some(Encode(">")), Some(Encode("  42.03")))
  {
    SampleLineReading();
  }

  class Chamber {
    /** `setpoint_temp`, in tenths of a degree. */
    var setpointTemp: int
    /** `setpoint_humidity`. */
    var setpointHumidity: int
    /** `digital_state`, the mask of `DigitalState` flags. */
    var digitalState: nat
    var printerStat: bool
    var isTemp: Option<FloatValue>
    var isHum: Option<int>
    var indicator: Option<seq<byte>>
    var setTemp: Option<seq<byte>>

    /** The mask stays a byte. */
    ghost predicate Valid()
      reads this
    {
      digitalState <= 0xFF
    }

    ghost function Attributes(): Stored
      reads this
    {
      Stored(isTemp, isHum, printerStat, indicator, setTemp)
    }

    /** The class defaults: 25.0 degrees, humidity 0, no channel on, printer off. */
    constructor ()
      ensures Valid()
      ensures setpointTemp == 250 && setpointHumidity == 0 && digitalState == 0
      ensures Attributes() == Stored(None, None, false, None, None)
    {
      setpointTemp := 250;
      setpointHumidity := 0;
      digitalState := 0;
      printerStat := false;
      isTemp := None;
      isHum := None;
      indicator := None;
      setTemp := None;
    }

    /**
     * `parseResponse`: a reply of the wrong length is refused before any
     * attribute is assigned; otherwise the converted fields are assigned.
     */
    method ParseResponse(msg: string) returns (outcome: Result<Reading, DecodeError>)
      modifies this
      ensures outcome == DecodeResponse(msg)
      ensures Attributes() == AfterDecode(old(Attributes()), outcome)
      ensures |Encode(msg)| != 59 ==> outcome.Err? && unchanged(this)
      ensures setpointTemp == old(setpointTemp) && setpointHumidity == old(setpointHumidity)
      ensures digitalState == old(digitalState)
    {
      var raw := Encode(msg);
      outcome := DecodeBytes(raw);
      if |raw| != 59 {
        DecodeLength(raw);
        return;
      }
      AssignFields(outcome);
    }

    /**
     * The assignments of `parseResponse`, in the driver's order: `is_temp`
     * first, then the rest once `int` has accepted the humidity.
     */
    method AssignFields(outcome: Result<Reading, DecodeError>)
      modifies this
      ensures Attributes() == AfterDecode(old(Attributes()), outcome)
      ensures setpointTemp == old(setpointTemp) && setpointHumidity == old(setpointHumidity)
      ensures digitalState == old(digitalState)
    {
      match outcome
      case Ok(r) =>
        isTemp := Some(r.temperature);
        isHum := Some(r.humidity);
        printerStat := r.printer;
        indicator := Some(r.indicator);
        setTemp := Some(r.setpointEcho);
      case Err(BadHumidity(t, _)) =>
        isTemp := Some(t);
      case Err(_) =>
    }

    /**
     * `makeMessage`: the command for the current setpoints and mask, and
     * the decode of the instrument's reply to it.
     */
    method MakeMessage(reply: string) returns (command: string, outcome: Result<Reading, DecodeError>)
      modifies this
      ensures command == Command(setpointTemp, setpointHumidity, digitalState)
      ensures outcome == DecodeResponse(reply)
      ensures Attributes() == AfterDecode(old(Attributes()), outcome)
      ensures setpointTemp == old(setpointTemp) && setpointHumidity == old(setpointHumidity)
      ensures digitalState == old(digitalState)
    {
      command := Command(setpointTemp, setpointHumidity, digitalState);
      outcome := ParseResponse(reply);
    }

    /**
     * `setDigitalState`: switch one channel on or off, leaving the other
     * bits of the mask alone, then send the new command. `value` defaults
     * to off, as in the driver.
     */
    method SetDigitalState(channel: DigitalState, reply: string, value: bool := false)
      returns (command: string, outcome: Result<Reading, DecodeError>)
      requires Valid()
      modifies this
      ensures Valid()
      ensures digitalState
        == if value then SetFlag(old(digitalState), channel) else ClearFlag(old(digitalState), channel)
      ensures Bit(digitalState, Position(channel)) == value
      ensures forall i: nat :: i != Position(channel) ==> Bit(digitalState, i) == Bit(old(digitalState), i)
      ensures command == Command(setpointTemp, setpointHumidity, digitalState)
      ensures outcome == DecodeResponse(reply)
      ensures Attributes() == AfterDecode(old(Attributes()), outcome)
      ensures setpointTemp == old(setpointTemp) && setpointHumidity == old(setpointHumidity)
    {
      var mask := digitalState;
      FlagsKeepByteRange(mask, channel);
      if value {
        digitalState := SetFlag(mask, channel);
      } else {
        digitalState := ClearFlag(mask, channel);
      }
      forall i: nat
        ensures Bit(digitalState, i) == (if i == Position(channel) then value else Bit(mask, i))
      {
        if value {
          SetFlagBits(mask, channel, i);
        } else {
          ClearFlagBits(mask, channel, i);
          if i >= 8 {
            HighBitsOfByte(mask, i);
          }
        }
      }
      command, outcome := MakeMessage(reply);
    }
  }
}
