/** The firmware's globals and the functions of Source/PCB.c that update them in
    place: the I2C interrupt handler (`ssp_interrupt`, split by the value of
    `i2c_isr_state()` into OnAddressMatch, OnByte and OnReadRequest), the refresh step
    `updateScreen`, and the routines they call. Every method is proved to change the
    state exactly as the corresponding function of module Protocol says. */
module Firmware {
  import opened Machine
  import opened Hd44780
  import opened TextBuffer
  import opened Refresh
  import Sensors
  import Decimal
  import opened Protocol

  class Peripheral {
    var slaveState: SlaveState
    /** `inputCursor`, where the next received character is stored. */
    var inputCursor: byte
    /** `curText` without its terminator cell. */
    const curText: array<byte>
    /** `gblDirtyBits`. */
    var dirtyBits: Bits
    /** `gblDisplayValue`. */
    var displayValue: u16
    /** `gblSensorBufferHi`. */
    var sensorHi: byte
    /** `gblSensorValues`. */
    const sensorValues: array<u16>
    /** `gblUpdatedSensors`. */
    var updatedSensors: Bits
    /** `gblLastSensorReceived`. */
    var lastSensor: byte
    /** `gblDisplayBufferIndex`, the refresh scan position. */
    var displayIndex: byte
    /** `gblDisplayModuleCursorPos`, the shadow of the display's cursor. */
    var cursorShadow: byte
    /** Whether the timer 1 interrupt, which paces the refresh, is enabled. */
    var timerOn: bool
    /** Every byte sent to the display, in order. */
    var log: seq<Event>
    /** How often the bus engine has been reset. */
    ghost var busResets: nat

    ghost function Snap(): Snapshot
      reads this, curText, sensorValues
    {
      Snapshot(slaveState, Text(curText[..], dirtyBits, inputCursor), displayValue,
               Sensors.Table(sensorValues[..], updatedSensors, lastSensor, sensorHi),
               Screen(displayIndex, cursorShadow, timerOn, log), busResets)
    }

    predicate Sized()
      reads this
    {
      curText.Length == SIZE && sensorValues.Length == Sensors.PORTS
        && |dirtyBits| == SIZE && |updatedSensors| == Sensors.PORTS
    }

    ghost predicate Valid()
      reads this, curText, sensorValues
    {
      Sized() && Inv(Snap())
    }

    /** The state after `init`: a blank, all-dirty buffer, the display initialised and
        addressed at position 0, and a refresh pending. */
    constructor (values: seq<u16>, last: byte, pendingHi: byte)
      requires |values| == Sensors.PORTS
      ensures Valid()
      ensures Snap() == PowerOn(values, last, pendingHi)
      ensures fresh(curText) && fresh(sensorValues)
    {
      slaveState := WaitAddress;
      inputCursor := 0;
      curText := new byte[SIZE](_ => BLANK);
      dirtyBits := Ones(SIZE);
      displayValue := 0;
      sensorHi := pendingHi;
      sensorValues := new u16[Sensors.PORTS](k requires 0 <= k < Sensors.PORTS => values[k]);
      updatedSensors := Zero(Sensors.PORTS);
      lastSensor := last;
      displayIndex := 0;
      cursorShadow := 0;
      timerOn := false;
      log := [];
      busResets := 0;
      new;
      HideCursor();
      log := log + [Command(FUNCTION_SET_TWO_LINES)];
      SetPosition(0);
      TriggerScreenUpdate();
      assert curText[..] == Cleared().cells;
      assert sensorValues[..] == values;
      assert log == INIT_LOG;
      assert Snap().text == Cleared();
      assert Snap().screen == Screen(0, 0, true, INIT_LOG);
      PowerOnSpec(values, last, pendingHi);
    }

    // -------------------------------------------------------------------------
    // The display routines

    /** `setPosition`: one "Set DDRAM address" instruction. */
    method SetPosition(pos: byte)
      modifies this
      ensures Snap() == old(Snap()).(screen := Refresh.SetPosition(old(Snap()).screen, pos))
      ensures slaveState == old(slaveState) && Sized() == old(Sized())
    {
      log := log + [Command(SetAddressInstruction(pos))];
      cursorShadow := pos;
    }

    /** `type`: one data byte, '\0' sent as a blank. */
    method Type(ch: byte)
      modifies this
      ensures Snap() == old(Snap()).(screen := Refresh.Type(old(Snap()).screen, ch))
      ensures Sized() == old(Sized())
    {
      var code := ch;
      if code == 0 {
        code := BLANK;
      }
      log := log + [Data(code)];
      cursorShadow := ((cursorShadow as int + 1) % 256) as byte;
    }

    method HideCursor()
      modifies this
      ensures Snap() == old(Snap()).(screen := SendCommand(old(Snap()).screen, DISPLAY_ON_CURSOR_OFF))
    {
      log := log + [Command(DISPLAY_ON_CURSOR_OFF)];
    }

    method ShowCursor()
      modifies this
      ensures Snap() == old(Snap()).(screen := SendCommand(old(Snap()).screen, DISPLAY_ON_CURSOR_BLINK))
    {
      log := log + [Command(DISPLAY_ON_CURSOR_BLINK)];
    }

    /** `triggerScreenUpdate`: restart the scan and enable the timer. */
    method TriggerScreenUpdate()
      modifies this
      ensures Snap() == old(Snap()).(screen := Trigger(old(Snap()).screen))
    {
      displayIndex := 0;
      timerOn := true;
    }

    /** `clearScreen`: cursor 0, 32 blanks, every position dirty, refresh restarted. */
    method ClearScreen()
      requires Sized()
      modifies this, curText
      ensures Snap() == Protocol.ClearScreen(old(Snap()))
    {
      inputCursor := 0;
      label Cleared:
      for i := 0 to SIZE
        invariant forall k :: 0 <= k < i ==> curText[k] == BLANK
        invariant unchanged@Cleared(this)
      {
        curText[i] := BLANK;
      }
      assert curText[..] == Cleared().cells;
      dirtyBits := Ones(SIZE);
      TriggerScreenUpdate();
    }

    /** `updateScreen`: one step of the refresh scan. */
    method UpdateScreen()
      requires Valid()
      modifies this
      ensures Valid()
      ensures Snap() == Step(old(Snap()))
    {
      StepKeepsInv(Snap());
      if displayIndex == 32 {
        timerOn := false;
      } else {
        var i := displayIndex;
        if TestBit(dirtyBits, i as nat) {
          dirtyBits := ClearBit(dirtyBits, i as nat);
          if i != cursorShadow {
            SetPosition(i);
          }
          if i == 16 {
            SetPosition(16);
          }
          Type(curText[i]);
        }
        displayIndex := i + 1;
      }
    }

    // -------------------------------------------------------------------------
    // The I2C handler

    /** `i2c_isr_state() == 0`: address match for a write. Out of WAIT_ADDRESS the bus
        engine is reset (`resetI2C`). */
    method OnAddressMatch()
      requires Valid()
      modifies this
      ensures Valid()
      ensures Snap() == AddressMatch(old(Snap()))
    {
      AddressMatchKeepsInv(Snap());
      if slaveState != WaitAddress {
        busResets := busResets + 1;
        slaveState := WaitAddress;
        return;
      }
      slaveState := WaitCmd;
    }

    /** `i2c_isr_state() == 0x80`: address match for a read; the write cursor is
        pre-loaded for the master. */
    method OnReadRequest() returns (reply: byte)
      requires Valid()
      modifies this
      ensures Valid()
      ensures reply == ReadReply(old(Snap()))
      ensures Snap() == AfterRead(old(Snap()))
    {
      reply := inputCursor;
      slaveState := WaitAddress;
    }

    /** One character at the cursor: `curText[inputCursor] = input`, its dirty bit
        set, the cursor moved on with wrap-around at 31. */
    method WriteCharacter(b: byte)
      requires Sized() && inputCursor < 32
      modifies this, curText
      ensures Snap() == old(Snap()).(text := Write(old(Snap()).text, b))
    {
      curText[inputCursor] := b;
      dirtyBits := SetBit(dirtyBits, inputCursor as nat);
      inputCursor := if inputCursor == 31 then 0 else inputCursor + 1;
    }

    /** The WAIT_CMD case. */
    method Dispatch(input: byte)
      requires Sized() && slaveState == WaitCmd
      modifies this, curText
      ensures Snap() == Protocol.CommandByte(old(Snap()), input)
    {
      if input == PING {
        slaveState := WaitAddress;
      } else if input == CLEAR {
        ClearScreen();
        slaveState := WaitAddress;
      } else if input == DISPLAY_VALUE {
        slaveState := WaitValueHigh;
      } else if input == DISPLAY_SHORT_TEXT {
        slaveState := WaitShortText1;
      } else if input == DISPLAY_LONG_TEXT {
        slaveState := WaitCharacter;
      } else if input == SETPOS {
        slaveState := WaitPosition;
      } else if input == GETPOS {
      } else if input == HIDECUR {
        HideCursor();
        slaveState := WaitAddress;
      } else if input == SHOWCUR {
        ShowCursor();
        slaveState := WaitAddress;
      } else if input == DISPLAY_UPDATE_SENSORS {
        slaveState := ReadyForSensorHi;
      } else {
        slaveState := WaitAddress;
      }
    }

    /** The WAIT_VALUE_LOW_BYTE case: add the low byte, print the value in decimal
        (`sprintf("%Lu")`, terminated by '\0') and store the printed characters, at
        most five, at the cursor. */
    method ShowValue(input: byte)
      requires Sized() && inputCursor < 32
      modifies this, curText
      ensures var s := old(Snap()); var v := ValueOf(s.displayValue, input);
        Snap() == s.(displayValue := v, text := WriteAll(s.text, Decimal.Digits(v as nat)),
                     screen := Trigger(s.screen), state := WaitAddress)
    {
      displayValue := ValueOf(displayValue, input);
      ghost var digits := Decimal.Digits(displayValue as nat);
      Decimal.DigitsOf16Bit(displayValue);
      var valueBuffer := Decimal.Digits(displayValue as nat) + [0];
      StoreValueText(digits, valueBuffer);
      TriggerScreenUpdate();
      slaveState := WaitAddress;
    }

    /** The loop of the WAIT_VALUE_LOW_BYTE case: the characters of the printed value,
        up to its '\0' and at most five, are stored at the cursor. */
    method StoreValueText(ghost digits: seq<byte>, valueBuffer: seq<byte>)
      requires Sized() && inputCursor < 32
      requires valueBuffer == digits + [0] && |digits| <= 5 && Decimal.AllDigits(digits)
      modifies this, curText
      ensures Snap() == old(Snap()).(text := WriteAll(old(Snap()).text, digits))
    {
      ghost var s0 := Snap();
      var i := 0;
      while i < 5
        invariant 0 <= i <= |digits|
        invariant Sized() && inputCursor < 32
        invariant Snap() == s0.(text := WriteAll(s0.text, digits[..i]))
        decreases 5 - i
      {
        if valueBuffer[i] == 0 {
          break;
        }
        WriteAllSnoc(s0.text, digits[..i], digits[i]);
        assert digits[..i + 1] == digits[..i] + [digits[i]];
        WriteCharacter(valueBuffer[i]);
        i := i + 1;
      }
      assert i == |digits|;
      assert digits[..i] == digits;
    }

    /** `fillBlankSensorsWithDefaultValue`. */
    method FillBlankSensorsWithDefaultValue()
      requires Sized()
      modifies sensorValues
      ensures sensorValues[..] == Sensors.FillBlank(old(sensorValues[..]), updatedSensors)
    {
      for i := 0 to Sensors.PORTS
        invariant forall k :: 0 <= k < Sensors.PORTS ==>
          sensorValues[k] == if k < i && !TestBit(updatedSensors, k) then Sensors.SENTINEL else old(sensorValues[k])
      {
        if !TestBit(updatedSensors, i) {
          sensorValues[i] := Sensors.SENTINEL;
        }
      }
    }

    /** The READY_FOR_SENSOR_LOW case. */
    method ReceiveSensorLow(input: byte)
      requires Sized()
      modifies this, sensorValues
      ensures Snap() == old(Snap()).(sensors := Sensors.Receive(old(Snap()).sensors, input), state := WaitAddress)
    {
      var sensorLow := input;
      var sensorPort := sensorHi / 32;
      sensorValues[sensorPort] := ((sensorHi % 4) as u16) * 256 + sensorLow as u16;
      if sensorPort <= lastSensor {
        FillBlankSensorsWithDefaultValue();
        updatedSensors := Zero(Sensors.PORTS);
      }
      lastSensor := sensorPort;
      updatedSensors := SetBit(updatedSensors, sensorPort as nat);
      slaveState := WaitAddress;
    }

    /** `1 <= i2c_isr_state() < 0x80`: a data byte from the master, handled by state. */
    method OnByte(input: byte)
      requires Valid() && Accepts(Snap(), input)
      modifies this, curText, sensorValues
      ensures Valid()
      ensures Snap() == Receive(old(Snap()), input)
    {
      ReceiveKeepsInv(Snap(), input);
      match slaveState
      case WaitCmd =>
        Dispatch(input);
      case WaitValueHigh =>
        displayValue := (input as u16) * 256;
        slaveState := WaitValueLow;
      case WaitValueLow =>
        ShowValue(input);
      case WaitPosition =>
        var newPos := input;
        if newPos > 0 {
          newPos := newPos - 1;
        }
        if newPos > 32 {
          newPos := 0;
        }
        inputCursor := newPos;
        slaveState := WaitAddress;
      case WaitShortText1 =>
        WriteCharacter(input);
        slaveState := WaitShortText2;
      case WaitShortText2 =>
        WriteCharacter(input);
        slaveState := WaitShortText3;
      case WaitShortText3 =>
        WriteCharacter(input);
        slaveState := WaitShortText4;
      case WaitShortText4 =>
        WriteCharacter(input);
        TriggerScreenUpdate();
        slaveState := WaitAddress;
      case WaitCharacter =>
        if input != 0 {
          WriteCharacter(input);
        } else {
          TriggerScreenUpdate();
          slaveState := WaitAddress;
        }
      case ReadyForSensorHi =>
        sensorHi := input;
        slaveState := ReadyForSensorLow;
      case ReadyForSensorLow =>
        ReceiveSensorLow(input);
      case WaitAddress =>
        slaveState := WaitAddress;
      case SendPosition =>
        slaveState := WaitAddress;
    }

    /** `ssp_interrupt`: the event named by `i2c_isr_state()`, handled as Handle says;
        the answer to a read request is returned. */
    method SspInterrupt(isrState: byte, data: byte) returns (reply: Option<byte>)
      requires Valid()
      requires 0 < isrState < 0x80 ==> Accepts(Snap(), data)
      modifies this, curText, sensorValues
      ensures Valid()
      ensures EventOf(isrState, data).None? ==> Snap() == old(Snap())
      ensures EventOf(isrState, data).Some? ==> Handle(old(Snap()), EventOf(isrState, data).value) == Some(Snap())
      ensures reply == if isrState == 0x80 then Some(old(Snap()).text.cursor) else None
    {
      reply := None;
      if isrState == 0 {
        OnAddressMatch();
      } else if isrState < 0x80 {
        OnByte(data);
      } else if isrState == 0x80 {
        var r := OnReadRequest();
        reply := Some(r);
      }
    }
  }
}
