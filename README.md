# I2C character-display peripheral (PCB.c), modelled in Dafny

The firmware in `Source/PCB.c` runs on a PIC16F886 on the LCD board of the GoGo board. It is an
I2C slave. The bus master sends it commands such as PING, DISPLAY_VALUE, SHORT_TEXT, LONG_TEXT,
CLEAR, GETPOS, SETPOS, HIDECUR, SHOWCUR and UPDATE_SENSORS.

The interrupt handler `ssp_interrupt` takes one bus event per call and walks a 13-state protocol
machine. It stores characters in a 32-cell text buffer, marks each changed cell in a 32-bit dirty
mask, moves a write cursor and reassembles sensor readings.

A refresh step, `updateScreen`, is paced by a timer. Each call writes at most one dirty cell to an
HD44780-compatible two-line display. Before the write it re-addresses the display's cursor when its
shadow copy of that cursor differs from the cell. It also re-addresses at cell 16 every time, so
that cell gets two address instructions when the shadow differs as well.

## Modules

- `Machine` (machine.dfy): the CCS integer types `byte` and `u16`, and masks as sequences of bits.
- `Hd44780` (hd44780.dfy): the bytes sent to the display and their meaning.
  - `Run` tracks the controller's address counter and its display data RAM.
  - `SetAddressInstruction` is the "Set DDRAM address" byte of `setPosition`.
- `TextBuffer` (text_buffer.dfy): the buffer, the dirty mask, the write cursor and a character write.
- `Refresh` (refresh.dfy): the scan index, the cursor shadow, the timer flag, and `setPosition`,
  `type` and `triggerScreenUpdate` on them. It also defines the two facts the refresh relies on:
  - `Tracks`: the shadow agrees with the display's counter;
  - `Synced`: every clean cell is on the display.
- `Sensors` (sensors.dfy): decoding of the two sensor bytes, the table of eight readings and
  `fillBlankSensorsWithDefaultValue`.
- `Decimal` (decimal.dfy): the `%Lu` text of DISPLAY_VALUE and the five-digit split of `show_adc`.
- `Protocol` (protocol.dfy): the whole handler and the refresh step as functions on a `Snapshot` of
  the globals, with the lemmas about commands, whole transactions, the invariant and a full refresh.
- `Firmware` (firmware.dfy): class `Peripheral`, whose fields are the globals the core reads
  again later (`curText` and `gblSensorValues` are arrays).
  - Five globals are not fields: `input`, `gblNewLCDPos`, `valueBuffer` and
    `gblSensorBufferLow` only carry a value within one call, so they are locals and parameters.
    `gblSensorTimeout` is never read.
  - Its methods change the fields in place, as the C functions do.
  - Each method is proved to produce exactly the state the matching `Protocol` function describes:
    `Snap() == Protocol.F(old(Snap()))`.

## Modelling decisions

- `int32 gblDirtyBits` and `int gblUpdatedSensors` are used only through `bit_set`, `bit_clear`,
  `bit_test`, and initialisation or assignment of `0` or `0xffffffff` (lines 154, 157, 421, 529,
  539). Each is modelled by its bits: a `seq<bool>` of width 32 or 8.
- `input << 8` (line 291) and `(gblSensorBufferHi & 3) << 8` (line 412) shift an 8-bit operand.
  The model assumes C's promotion of the operand to a wider integer before the shift, that is
  `hi * 256 + lo`. If the compiler evaluated these in 8 bits, the high byte would be lost and the
  value would be just the low byte; the model does not cover that reading. The sum in `gblDisplayValue += input` wraps at 16 bits (`ValueOf`).
- `sprintf("%Lu")` is replaced by `Decimal.Digits`. It is proved to be the canonical decimal text:
  it reads back as the value and has no leading zero. It is also the only such text.
- The display is modelled as the sequence of bytes sent to it, each either an instruction
  (`Command`) or character data (`Data`).
- What those bytes do to the display (`Hd44780.Apply`, `NextAc`) is an assumption about the
  HD44780 controller in two-line mode, taken from its data sheet and not from this firmware:
  - "Set DDRAM address" (0x80 and above) sets the address counter;
  - the other instructions sent (0x0C, 0x0F, 0x38) leave the counter and the data memory alone;
  - a data byte is stored at the counter, which then increments, with 0x27 followed by 0x40 and
    0x67 by 0x00.
  `Tracks`, `Synced` and the display contents `Protocol.FullRefresh` promises rest on it.
- `gblTimeToUpdateScreen` and the timer interrupt are replaced by a `timerOn` flag. `updateScreen`
  is called directly.
- The ghost counter `busResets` counts the recoveries of the bus engine on an unexpected address
  match (`resetI2C` at line 201). The call of `resetI2C` in `init` (line 622) is not counted:
  the counter starts at 0.
- The sensor readings, `gblLastSensorReceived` and `gblSensorBufferHi` have no initialiser in the
  firmware. They are therefore parameters of the constructor.
- A character write at cursor 32 stores outside the 32 cells (`curText[32]` is the terminator).
  SETPOS 33 leaves the cursor there, and the next character would do that.
  - The model does not accept that byte: see `Accepts` and `SetPos33Overruns`.
  - Every other byte is handled, so `OnByte` only requires a cursor below 32 for character writes.
- The model follows the code where it differs from the obvious reading:
  - A received sensor reading is stored before the cycle-boundary fill. The fill can therefore
    overwrite that reading with 1023 (`Sensors.ReceiveSpec`, `Sensors.CycleOfTwoThenPortZero`).
  - GETPOS leaves the state at WAIT_CMD. The read that follows returns the cursor
    (`Protocol.GetPosTransaction`).
  - The sensor table starts uninitialised, as above.
- In WAIT_ADDRESS and SEND_POSITION a data byte reaches the `default` branch of the state switch
  (line 435). That branch calls `showError`, which does nothing, and sets WAIT_ADDRESS; the model
  only sets WAIT_ADDRESS.

## Model

| member | source | states |
|---|---|---|
| Machine.SetBit | Source/PCB.c:313 | `bit_set`: bit i becomes set, every other bit is kept, the width is kept |
| Machine.ClearBit | Source/PCB.c:640 | `bit_clear`: bit i becomes clear, every other bit is kept |
| Machine.TestBit | Source/PCB.c:639 | `bit_test(m, i)`: bit i of the mask; SetBit, ClearBit, ZeroIffNoBit and the counting lemmas state their meaning through it |
| Machine.ZeroIffNoBit | Source/PCB.c:421 | a mask equals the constant 0 exactly when none of its bits is set |
| Machine.CountFromBounds | Source/PCB.c:157 | the count of set bits from k on is at most the number of positions, and is 0 exactly when no bit from k on is set |
| Machine.CountFromOnes | Source/PCB.c:529 | in `0xffffffff` every one of the 32 bits is counted |
| Hd44780.SetAddressInstruction | Source/PCB.c:560 | the byte `setPosition` sends is a "Set DDRAM address" instruction, 0x80..0xCF |
| Hd44780.Ddram | Source/PCB.c:560 | where buffer position pos sits in display memory: row 1 at 0x00..0x0F, row 2 at 0x40..0x4F |
| Hd44780.SetAddressInstructionAddresses | Source/PCB.c:558-563 | for positions 0..31 the instruction addresses exactly Ddram(pos) (row 2 at 0x40), and the address decodes back to pos |
| Hd44780.DdramInjective | Source/PCB.c:560 | distinct buffer positions never share a display cell |
| Hd44780.NextAcAlongRow | Source/PCB.c:648-650 | after a character the display's counter reaches the next position exactly when that is not the start of row 2, which is why position 16 is always re-addressed |
| TextBuffer.Advance | Source/PCB.c:314 | the cursor after a write is (c + 1) mod 32 |
| TextBuffer.Write | Source/PCB.c:345-348 | one character write: store at the cursor, set its dirty bit, Advance; ensures the result is writable again; meaning in WriteSpec |
| TextBuffer.WriteAll | Source/PCB.c:308-317 | successive character writes, first byte first; ensures writable; meaning in WriteAllSpec |
| TextBuffer.WriteSpec | Source/PCB.c:345-350 | a write at cursor c stores b in cell c and sets dirty bit c; every other cell and bit is unchanged; the cursor wraps from 31 to 0 |
| TextBuffer.WriteAllSpec | Source/PCB.c:308-317 | up to 32 writes from cursor c put the k-th byte at (c + k) mod 32, mark exactly those positions dirty, keep every other cell and move the cursor by the count |
| TextBuffer.Cleared | Source/PCB.c:526-531 | the text `clearScreen` leaves is writable |
| TextBuffer.ClearedSpec | Source/PCB.c:526-531 | after `clearScreen`: cursor 0, 32 blanks, all 32 dirty bits set |
| TextBuffer.RequestedCursor | Source/PCB.c:328-330 | the SETPOS arithmetic: decrement a non-zero payload, then replace a result above 32 by 0; meaning in RequestedCursorSpec |
| TextBuffer.RequestedCursorSpec | Source/PCB.c:326-335 | SETPOS: 0 gives 0, 1..33 give b - 1, above 33 give 0; the cursor is at most 32, and it is 32 exactly for 33 |
| Refresh.Glyph | Source/PCB.c:494 | `type` shows '\0' as a blank and every other byte as itself |
| Refresh.Trigger | Source/PCB.c:463-471 | `triggerScreenUpdate` restarts the scan at 0 and enables the timer, leaving the shadow and the display alone (the definition unfolded; used wherever a command restarts the refresh) |
| Refresh.SetPosition | Source/PCB.c:558-563 | one "Set DDRAM address" instruction for pos is sent and the shadow becomes pos; effect on the display in SetPositionEffect |
| Refresh.Type | Source/PCB.c:490-498 | one data byte, Glyph(ch), is sent and the 8-bit shadow is incremented; effect on the display in TypeEffect |
| Refresh.SendCommand | Source/PCB.c:545-555 | one instruction byte is sent (0x0C for `hideCursor`, 0x0F for `showCursor`); effect in SendCommandEffect |
| Refresh.Readdress | Source/PCB.c:644-650 | `setPosition(i)` when the shadow differs from i, then `setPosition(16)` when i is 16; effect in ReaddressEffect |
| Refresh.Flush | Source/PCB.c:641-654 | the re-addressing, one `type` of the cell, and the index moved to i + 1; effect in FlushEffect, FlushSynced and FlushDataCount |
| Refresh.SetPositionEffect | Source/PCB.c:558-563 | after `setPosition(pos)` the display's counter is at pos's cell, the display data is unchanged and the shadow is pos |
| Refresh.TypeEffect | Source/PCB.c:490-498 | after `type(ch)` the cell under the counter holds ch (a blank for '\0') and the counter moves on |
| Refresh.SendCommandEffect | Source/PCB.c:545-555 | `hideCursor` and `showCursor` change neither the counter nor the display data |
| Refresh.ReaddressEffect | Source/PCB.c:644-650 | after the re-addressing of `updateScreen` the counter is at position i's cell whenever the shadow tracked the counter |
| Refresh.FlushEffect | Source/PCB.c:639-652 | writing dirty position i stores its glyph in i's cell and nothing else, and the new shadow i + 1 still tracks the counter |
| Refresh.FlushSynced | Source/PCB.c:639-652 | flushing position i and clearing its bit keeps every clean position on the display |
| Refresh.FlushDataCount | Source/PCB.c:652 | a flush sends exactly one character |
| Sensors.Port | Source/PCB.c:408 | `hi >> 5` names one of the eight ports |
| Sensors.Reading | Source/PCB.c:412 | the reassembled reading is at most 1023 |
| Sensors.DecodeEncode | Source/PCB.c:408-412 | decoding recovers every port 0..7 and every 10-bit reading the master can pack |
| Sensors.EncodeDecode | Source/PCB.c:408-412 | decoding ignores bits 2..4 of the high byte and keeps the whole low byte |
| Sensors.FillBlank | Source/PCB.c:511-522 | the filled table has eight readings |
| Sensors.NewCycle | Source/PCB.c:419 | a received port not above the last one received starts a new cycle |
| Sensors.Receive | Source/PCB.c:404-433 | the low byte: store the reading, on a new cycle fill the unsent ports and empty the updated set, then record the port; ensures the table keeps its sizes; meaning port by port in ReceiveSpec |
| Sensors.Update | Source/PCB.c:399-433 | the high byte kept, then Receive of the low byte; ensures the sizes; used by SensorTransaction and CycleOfTwoThenPortZero |
| Sensors.ReceiveSpec | Source/PCB.c:404-433 | per port: the received port gets its reading, or 1023 on a cycle boundary when it was not updated; other ports get 1023 on a boundary when not updated and are otherwise unchanged; the updated set becomes the port alone on a boundary, else grows by it; the port becomes the last one received |
| Sensors.CycleOfTwoThenPortZero | Source/PCB.c:404-433 | ports 2 and 5 followed by port 0 leave 2 and 5 with their readings and every other port, port 0 included, at 1023 |
| Sensors.DecodeExample | Source/PCB.c:408-412 | high byte 0x23 and low byte 0x64 are port 1, reading 868 |
| Decimal.Digits | Source/PCB.c:306 | the printed text is non-empty and all digits |
| Decimal.ValueOfDigits | Source/PCB.c:306 | the printed text reads back as the value |
| Decimal.DigitsCanonical | Source/PCB.c:306 | the printed text has no leading zero |
| Decimal.CanonicalIsDigits | Source/PCB.c:306 | every digit string without a leading zero is the printed text of its value |
| Decimal.DigitsLength | Source/PCB.c:306-309 | the text has at most n digits exactly when the value is below 10^n |
| Decimal.DigitsOf16Bit | Source/PCB.c:306-309 | a 16-bit value prints as one to five digits, so the five-iteration loop copies the whole text |
| Decimal.FiveDigits | Source/PCB.c:710-714 | the five `digit + 48` expressions of `show_adc`; meaning in FiveDigitsValue and AdcDigitsSpec |
| Decimal.AdcDigits | Source/PCB.c:662 | FiveDigits of `val_adc / 16`; meaning in AdcDigitsSpec |
| Decimal.FiveDigitsValue | Source/PCB.c:710-714 | the five characters of `show_adc` are digits and read back as the value |
| Decimal.AdcDigitsSpec | Source/PCB.c:662-714 | `show_adc` types the decimal text of `val_adc / 16` padded to five characters with leading zeros |
| Protocol.EventOf | Source/PCB.c:192-445 | `i2c_isr_state()` values above 0x80 are ignored, every other value is a bus event |
| Protocol.PowerOn | Source/PCB.c:574-625 | the globals after their initialisers and `init`: WAIT_ADDRESS, 32 dirty blanks, cursor 0, the three initialisation instructions sent, a refresh pending; meaning in PowerOnSpec |
| Protocol.AddressMatch | Source/PCB.c:194-212 | WAIT_CMD from WAIT_ADDRESS, otherwise a bus reset and WAIT_ADDRESS; meaning in AddressMatchSpec, invariant in AddressMatchKeepsInv |
| Protocol.ReadReply | Source/PCB.c:443 | the byte pre-loaded for the master: the write cursor; stated by ReadRequestSpec and GetPosTransaction |
| Protocol.AfterRead | Source/PCB.c:444 | WAIT_ADDRESS after a read request; stated by ReadRequestSpec |
| Protocol.ClearScreen | Source/PCB.c:526-531 | the cleared text and a restarted refresh; meaning in ClearedSpec and ClearThenRefresh |
| Protocol.CommandByte | Source/PCB.c:229-286 | the WAIT_CMD switch; meaning in CommandSpec, invariant in CommandKeepsInv |
| Protocol.ValueOf | Source/PCB.c:298 | `gblDisplayValue += input` in 16 bits: (shifted high byte + low byte) mod 65536; stated by ValueBytesSpec and DisplayValueTransaction |
| Protocol.Receive | Source/PCB.c:215-439 | the data-byte switch on the state; meaning in CommandSpec, CharacterSpec, ShortTextSpec, ValueBytesSpec, SensorBytesSpec and the transaction lemmas, invariant in ReceiveKeepsInv |
| Protocol.Step | Source/PCB.c:630-656 | one `updateScreen`; meaning in StepSpec and StepDataCount, invariant in StepKeepsInv |
| Protocol.Steps | Source/PCB.c:630-656 | n refresh steps in a row; ensures the sizes and ranges; meaning in ScanFrom and FullRefresh, invariant in StepsKeepInv |
| Protocol.Handle | Source/PCB.c:168-449 | handling one event keeps the sizes and ranges of the state |
| Protocol.Process | Source/PCB.c:168-449 | a sequence of events keeps the sizes and ranges |
| Protocol.PowerOnSpec | Source/PCB.c:574-625 | after `init` the invariant holds, the display is addressed at 0, the buffer is 32 dirty blanks and a refresh is pending |
| Protocol.AddressMatchSpec | Source/PCB.c:194-212 | in WAIT_ADDRESS an address match starts a command; in any other state it resets the bus and returns to WAIT_ADDRESS without touching text, cursor, sensors or display, so the next match starts a command |
| Protocol.ReadRequestSpec | Source/PCB.c:442-445 | a read request returns the cursor and sets WAIT_ADDRESS, nothing else changes (the definitions of ReadReply and AfterRead unfolded) |
| Protocol.CommandSpec | Source/PCB.c:229-286 | PING, CLEAR, HIDECUR, SHOWCUR and unknown bytes end in WAIT_ADDRESS; the payload commands enter their first payload state; GETPOS changes nothing; only CLEAR touches the text and only HIDECUR and SHOWCUR talk to the display |
| Protocol.CharacterSpec | Source/PCB.c:345-390 | a character byte is written at the cursor in LONG_TEXT and the four SHORT_TEXT states; a 0 byte ends LONG_TEXT and writes nothing (one case arm of Receive unfolded; composed into whole commands by the transaction lemmas) |
| Protocol.ShortTextSpec | Source/PCB.c:345-372 | each SHORT_TEXT state writes its byte and moves to the next; the fourth restarts the refresh and ends the transaction (one case arm of Receive unfolded; composed into whole commands by the transaction lemmas) |
| Protocol.ValueBytesSpec | Source/PCB.c:290-324 | the high byte is kept shifted by 8; the low byte completes the 16-bit value, whose text is written at the cursor before the refresh restarts (one case arm of Receive unfolded; composed into whole commands by the transaction lemmas) |
| Protocol.SensorBytesSpec | Source/PCB.c:399-433 | the high byte is kept; the low byte completes the sensor update and ends the transaction (one case arm of Receive unfolded; composed into whole commands by the transaction lemmas) |
| Protocol.ReceiveKeepsInv | Source/PCB.c:215-439 | every accepted data byte keeps the invariant |
| Protocol.StepKeepsInv | Source/PCB.c:630-656 | a refresh step keeps the invariant: the shadow tracks the counter and every clean cell is on the display |
| Protocol.ProcessKeepsInv | Source/PCB.c:168-449 | every accepted sequence of bus events keeps the invariant |
| Protocol.StepsKeepInv | Source/PCB.c:630-656 | any number of refresh steps keeps the invariant |
| Protocol.ShortTextTransaction | Source/PCB.c:245-250 | SHORT_TEXT a b c d writes exactly those four characters, restarts the refresh and ends in WAIT_ADDRESS |
| Protocol.LongTextRun | Source/PCB.c:377-385 | in LONG_TEXT every non-zero byte is written at the cursor and the state stays |
| Protocol.LongTextTransaction | Source/PCB.c:252-254 | LONG_TEXT with its characters and a 0 writes the characters in order, restarts the refresh and ends in WAIT_ADDRESS |
| Protocol.DisplayValueTransaction | Source/PCB.c:290-324 | DISPLAY_VALUE hi lo writes the one to five digits of hi * 256 + lo, without leading zero, restarts the refresh and ends in WAIT_ADDRESS |
| Protocol.DisplayValueEvents | Source/PCB.c:290-324 | the four events of DISPLAY_VALUE, one at a time, give the written value text and the stored value |
| Protocol.DisplayValueExamples | Source/PCB.c:306 | 7 prints as "7" and 1000 as "1000" |
| Protocol.SetPosTransaction | Source/PCB.c:326-339 | SETPOS p sets the cursor to RequestedCursor(p) and changes nothing else |
| Protocol.SetPos33Overruns | Source/PCB.c:329-330 | after SETPOS 33 the next LONG_TEXT character would be stored past the 32 cells |
| Protocol.GetPosTransaction | Source/PCB.c:260-264 | GETPOS leaves the state in WAIT_CMD, and the read that follows returns the cursor and ends the transaction |
| Protocol.SensorTransaction | Source/PCB.c:399-433 | UPDATE_SENSORS hi lo performs one sensor update and ends in WAIT_ADDRESS |
| Protocol.StepSpec | Source/PCB.c:630-656 | at index 32 only the timer stops; a clean position is skipped with no output; a dirty position loses only its bit, is re-addressed when the shadow differs and always at 16, and sends exactly its glyph; the index moves on |
| Protocol.StepDataCount | Source/PCB.c:639-653 | a step sends one character exactly when the position under the index is dirty |
| Protocol.ScanStep | Source/PCB.c:636-655 | before the end of the scan only the bit under the index may be cleared and only the mask and display change |
| Protocol.ScanFrom | Source/PCB.c:630-656 | the scan from index k clears every dirty bit from k on, keeps those below, and sends one character per dirty position from k on |
| Protocol.FullRefresh | Source/PCB.c:630-656 | from index 0, 33 steps leave the mask empty, send exactly as many characters as there were dirty bits (at most 32), stop the timer and leave the display showing the buffer; further steps send nothing |
| Protocol.FinishScan | Source/PCB.c:633-635 | the step at index 32 only disables the timer |
| Protocol.Idle | Source/PCB.c:633-635 | once the scan has finished, further steps send nothing and change no text |
| Protocol.CleanStepSilent | Source/PCB.c:639 | with no dirty bit a step sends nothing, whatever the index |
| Protocol.ClearThenRefresh | Source/PCB.c:236-239 | CLEAR then a full refresh sends 32 characters, empties the mask and leaves 32 blanks on the display |
| Firmware.Peripheral.constructor | Source/PCB.c:130-157 | the initial globals after `init` are the state PowerOn describes, and they satisfy the invariant |
| Firmware.Peripheral.SetPosition | Source/PCB.c:558-563 | sends the address instruction and sets the shadow |
| Firmware.Peripheral.Type | Source/PCB.c:490-498 | sends the glyph and moves the 8-bit shadow on |
| Firmware.Peripheral.HideCursor | Source/PCB.c:551-555 | the new state is SendCommand of the old one with instruction 0x0C |
| Firmware.Peripheral.ShowCursor | Source/PCB.c:545-549 | the new state is SendCommand of the old one with instruction 0x0F |
| Firmware.Peripheral.TriggerScreenUpdate | Source/PCB.c:463-471 | restarts the scan and enables the timer |
| Firmware.Peripheral.ClearScreen | Source/PCB.c:526-531 | fills the array with blanks in a loop, sets every dirty bit, sets cursor 0 and restarts the refresh |
| Firmware.Peripheral.UpdateScreen | Source/PCB.c:630-656 | changes the globals exactly as Step says and keeps the invariant |
| Firmware.Peripheral.OnAddressMatch | Source/PCB.c:194-212 | changes the globals exactly as AddressMatch says and keeps the invariant |
| Firmware.Peripheral.OnReadRequest | Source/PCB.c:442-445 | returns the cursor and changes the state as AfterRead says |
| Firmware.Peripheral.WriteCharacter | Source/PCB.c:346-348 | stores the byte, sets its dirty bit and advances the cursor, exactly as Write says |
| Firmware.Peripheral.Dispatch | Source/PCB.c:229-286 | the WAIT_CMD switch, exactly as Command says |
| Firmware.Peripheral.ShowValue | Source/PCB.c:295-324 | completes the value, stores its text at the cursor and restarts the refresh |
| Firmware.Peripheral.StoreValueText | Source/PCB.c:308-317 | the copy loop stores the printed characters up to the terminator, at most five, as WriteAll says |
| Firmware.Peripheral.FillBlankSensorsWithDefaultValue | Source/PCB.c:511-522 | the loop sets every port whose updated bit is clear to 1023 and keeps the others |
| Firmware.Peripheral.ReceiveSensorLow | Source/PCB.c:404-433 | the READY_FOR_SENSOR_LOW case, exactly as Sensors.Receive says |
| Firmware.Peripheral.OnByte | Source/PCB.c:215-439 | changes the globals exactly as Receive says and keeps the invariant |
| Firmware.Peripheral.SspInterrupt | Source/PCB.c:168-449 | dispatches on `i2c_isr_state()` as Handle says, returns the cursor for a read request and ignores 0x81..0xFF |

## Left out

- Pin-level display I/O is not modelled: `submit`, `output_b`, `output_high`/`output_low`, the
  delays and the strobes of `twoDisplay`, `hideCursor` and `showCursor`. Each byte sent to the
  display is one `Event`.
- The bus engine is foreign hardware: `i2c_isr_state`, `i2c_read`, `i2c_write` and `i2c_poll`
  are not modelled. The state and data byte are parameters of `SspInterrupt`, and the reply is
  its result. A failing `i2c_poll` (line 220) returns without effect and is not modelled. The
  register pokes of `resetI2C` are recorded only by the ghost counter `busResets`.
- `timer1_isr`, `gblTimeToUpdateScreen` and interrupt masking are not modelled, because they exist
  for concurrency. The timer is a flag, and `updateScreen` is called directly.
- `showError` returns at once because `DEBUG_ON` is 0, so it has no effect and is not modelled.
- `sprintf` is a library call; `Decimal.Digits` stands in for its `%Lu` output.
- `main` and the painting sequence of `show_adc` are a polling loop that types directly to the
  display; only the five-digit split (`Decimal.FiveDigits`) is modelled.
- `gblSensorTimeout` is written but never read.
- Source/myMCP3208.c is not part of this model. It is the serial driver for the converter and is
  not used by the display or bus logic.
- `curText[32]`, the string terminator, is not part of the buffer value. A character write at
  cursor 32 (after SETPOS 33) is outside the model: `Protocol.Accepts` rejects it.
- Each `ssp_interrupt` call and each `updateScreen` call is taken as atomic. In the firmware the bus
  interrupt can preempt `updateScreen` (the `disable_interrupts` at line 176 is commented out).
  `triggerScreenUpdate` (line 467) can then reset the index before the increment at line 654, and
  HIDECUR or SHOWCUR (lines 266-274) can interleave their pin traffic with a `type`. The model does
  not capture these interleavings.
- `Synced`, and the display contents that `Protocol.FullRefresh` promises, hold for the core on its
  own. `main` calls `show_adc`, which paints the display directly (lines 668-721) and so can break
  them. The model does not include that painting.
- The debug pins the handler drives (`output_high(PIN_C1)`, `output_high(PIN_C2)`,
  `output_low(PIN_C2)`) are not modelled.
