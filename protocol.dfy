/** The I2C command protocol and the refresh step as functions on a snapshot of the
    firmware's state (`ssp_interrupt` and `updateScreen` in Source/PCB.c). The class
    in module Firmware performs the same changes in place and is proved to agree with
    these functions; the lemmas here state what the protocol does. */
module Protocol {
  import opened Machine
  import opened Hd44780
  import opened TextBuffer
  import opened Refresh
  import Sensors
  import Decimal

  datatype Option<T> = None | Some(value: T)

  /** `slaveState`; the firmware numbers these 0 (WAIT_ADDRESS) to 12 (WAIT_SHORT_TEXT4)
      in this order. SendPosition (4) is declared but never entered. */
  datatype SlaveState =
    | WaitAddress | WaitCmd | WaitPosition | WaitCharacter | SendPosition
    | WaitValueHigh | WaitValueLow | ReadyForSensorHi | ReadyForSensorLow
    | WaitShortText1 | WaitShortText2 | WaitShortText3 | WaitShortText4

  // Command bytes.
  const PING: byte := 1
  const DISPLAY_VALUE: byte := 2
  const DISPLAY_SHORT_TEXT: byte := 3
  const DISPLAY_UPDATE_SENSORS: byte := 4
  const DISPLAY_LONG_TEXT: byte := 5
  const CLEAR: byte := 6
  const GETPOS: byte := 7
  const SETPOS: byte := 8
  const HIDECUR: byte := 9
  const SHOWCUR: byte := 10

  /** The firmware's state. busResets counts the recoveries of the bus engine
      (`resetI2C`), which the model does not otherwise represent. */
  datatype Snapshot = Snapshot(
    state: SlaveState,
    text: Text,
    displayValue: u16,
    sensors: Sensors.Table,
    screen: Screen,
    busResets: nat)

  /** Sizes and ranges: 32 cells and dirty bits, a cursor and scan index of at most
      32, eight sensor readings. */
  predicate Wf(s: Snapshot) {
    && s.text.Valid()
    && s.sensors.Valid()
    && s.screen.Valid()
  }

  /** The invariant every event and refresh step keeps: the sizes and ranges, the shadow
      cursor tracks the display's address counter, and every clean position is shown
      on the display. */
  predicate Inv(s: Snapshot) {
    && Wf(s)
    && Tracks(s.screen)
    && Synced(s.text, s.screen)
  }

  /** The bytes that store a character at the write cursor. */
  predicate WritesText(st: SlaveState, b: byte) {
    st in {WaitValueLow, WaitShortText1, WaitShortText2, WaitShortText3, WaitShortText4}
    || (st == WaitCharacter && b != 0)
  }

  /** The bytes the model handles: all of them, except a character write while SETPOS
      has left the cursor at 32, where the firmware writes outside the 32 cells. */
  predicate Accepts(s: Snapshot, b: byte) {
    Wf(s) && (WritesText(s.state, b) ==> s.text.Writable())
  }

  /** What `init` sends to the display: `hideCursor`, `twoDisplay`, `setPosition(0)`. */
  const INIT_LOG: seq<Event> :=
    [Command(DISPLAY_ON_CURSOR_OFF), Command(FUNCTION_SET_TWO_LINES), Command(SetAddressInstruction(0))]

  /** The state once `init` has run. The sensor readings, the last port received and
      the pending high byte have no initialiser in the firmware, so they are whatever
      the caller supplies. */
  function PowerOn(values: seq<u16>, last: byte, pendingHi: byte): (s: Snapshot)
    requires |values| == Sensors.PORTS
  {
    Snapshot(WaitAddress, Cleared(), 0, Sensors.Table(values, Zero(Sensors.PORTS), last, pendingHi),
             Screen(0, 0, true, INIT_LOG), 0)
  }

  /** After `init` the invariant holds, the display's counter is at position 0 and no
      character has been sent, the buffer is 32 blanks, all dirty, and a full refresh
      is pending. */
  lemma PowerOnSpec(values: seq<u16>, last: byte, pendingHi: byte)
    requires |values| == Sensors.PORTS
    ensures var s := PowerOn(values, last, pendingHi);
      && Inv(s)
      && PanelOf(s.screen.log).ac == 0 && DataCount(s.screen.log) == 0
      && s.text == Cleared() && PopCount(s.text.dirty) == SIZE
      && s.screen.index == 0 && s.screen.timerOn
  {
    var e1, e2, e3 := Command(DISPLAY_ON_CURSOR_OFF), Command(FUNCTION_SET_TWO_LINES),
      Command(SetAddressInstruction(0));
    var log := INIT_LOG;
    assert [] + [e1] == [e1] && [e1] + [e2] == [e1, e2] && [e1, e2] + [e3] == log;
    RunSnoc(POWER_ON, [], e1);
    RunSnoc(POWER_ON, [e1], e2);
    RunSnoc(POWER_ON, [e1, e2], e3);
    DataCountSnoc([], e1);
    DataCountSnoc([e1], e2);
    DataCountSnoc([e1, e2], e3);
    SetAddressInstructionAddresses(0);
    ClearedSynced(Screen(0, 0, true, log));
    ClearedSpec();
  }

  // ---------------------------------------------------------------------------
  // Bus events

  /** Address match with the read/write bit clear (`i2cState == 0`). */
  function AddressMatch(s: Snapshot): Snapshot {
    if s.state == WaitAddress then s.(state := WaitCmd)
    else s.(state := WaitAddress, busResets := s.busResets + 1)
  }

  /** Address match with the read/write bit set (`i2cState == 0x80`): the byte
      pre-loaded for the master, and the state afterwards. */
  function ReadReply(s: Snapshot): byte {
    s.text.cursor
  }

  function AfterRead(s: Snapshot): Snapshot {
    s.(state := WaitAddress)
  }

  /** `clearScreen`. */
  function ClearScreen(s: Snapshot): Snapshot {
    s.(text := Cleared(), screen := Trigger(s.screen))
  }

  /** The command byte, in WAIT_CMD. */
  function CommandByte(s: Snapshot, b: byte): Snapshot {
    if b == PING then s.(state := WaitAddress)
    else if b == CLEAR then ClearScreen(s).(state := WaitAddress)
    else if b == DISPLAY_VALUE then s.(state := WaitValueHigh)
    else if b == DISPLAY_SHORT_TEXT then s.(state := WaitShortText1)
    else if b == DISPLAY_LONG_TEXT then s.(state := WaitCharacter)
    else if b == SETPOS then s.(state := WaitPosition)
    else if b == GETPOS then s
    else if b == HIDECUR then s.(screen := SendCommand(s.screen, DISPLAY_ON_CURSOR_OFF), state := WaitAddress)
    else if b == SHOWCUR then s.(screen := SendCommand(s.screen, DISPLAY_ON_CURSOR_BLINK), state := WaitAddress)
    else if b == DISPLAY_UPDATE_SENSORS then s.(state := ReadyForSensorHi)
    else s.(state := WaitAddress)
  }

  /** The value DISPLAY_VALUE shows: the high byte shifted by 8 (C promotion) plus the
      low byte, in the 16-bit `gblDisplayValue`. */
  function ValueOf(hi: u16, lo: byte): u16 {
    ((hi as int + lo as int) % 0x1_0000) as u16
  }

  /** A data byte from the master (`i2cState` 1..0x7F). */
  function Receive(s: Snapshot, b: byte): (r: Snapshot)
    requires Accepts(s, b)
  {
    match s.state
    case WaitCmd => CommandByte(s, b)
    case WaitValueHigh => s.(displayValue := (b as int * 256) as u16, state := WaitValueLow)
    case WaitValueLow =>
      var v := ValueOf(s.displayValue, b);
      s.(displayValue := v, text := WriteAll(s.text, Decimal.Digits(v as nat)),
         screen := Trigger(s.screen), state := WaitAddress)
    case WaitPosition => s.(text := s.text.(cursor := RequestedCursor(b)), state := WaitAddress)
    case WaitShortText1 => s.(text := Write(s.text, b), state := WaitShortText2)
    case WaitShortText2 => s.(text := Write(s.text, b), state := WaitShortText3)
    case WaitShortText3 => s.(text := Write(s.text, b), state := WaitShortText4)
    case WaitShortText4 => s.(text := Write(s.text, b), screen := Trigger(s.screen), state := WaitAddress)
    case WaitCharacter =>
      if b != 0 then s.(text := Write(s.text, b))
      else s.(screen := Trigger(s.screen), state := WaitAddress)
    case ReadyForSensorHi => s.(sensors := s.sensors.(pendingHi := b), state := ReadyForSensorLow)
    case ReadyForSensorLow => s.(sensors := Sensors.Receive(s.sensors, b), state := WaitAddress)
    case WaitAddress => s.(state := WaitAddress)
    case SendPosition => s.(state := WaitAddress)
  }

  // ---------------------------------------------------------------------------
  // The refresh step

  /** `updateScreen`: flush at most one buffer position. */
  function Step(s: Snapshot): Snapshot
    requires Wf(s)
  {
    var sc := s.screen;
    var i := sc.index;
    if i == 32 then s.(screen := sc.(timerOn := false))
    else if !TestBit(s.text.dirty, i as nat) then s.(screen := sc.(index := i + 1))
    else s.(text := s.text.(dirty := ClearBit(s.text.dirty, i as nat)), screen := Flush(sc, i, s.text.cells[i]))
  }

  /** n refresh steps in a row. */
  function Steps(s: Snapshot, n: nat): (r: Snapshot)
    requires Wf(s)
    ensures Wf(r)
    decreases n
  {
    if n == 0 then s else StepKeepsWf(s); Steps(Step(s), n - 1)
  }

  // ---------------------------------------------------------------------------
  // Event sequences

  datatype BusEvent = WriteAddressed | DataByte(b: byte) | ReadAddressed

  /** The event behind an interrupt, by the value of `i2c_isr_state()`: 0 is an
      address match for a write, 1..0x7F a data byte, 0x80 an address match for a
      read. 0x81..0xFF (a byte sent to the master was acknowledged) is ignored. */
  function EventOf(isrState: byte, data: byte): (e: Option<BusEvent>)
    ensures e.None? <==> isrState > 0x80
  {
    if isrState == 0 then Some(WriteAddressed)
    else if isrState < 0x80 then Some(DataByte(data))
    else if isrState == 0x80 then Some(ReadAddressed)
    else None
  }

  /** One bus event; None for a byte the model does not accept. */
  function Handle(s: Snapshot, e: BusEvent): (r: Option<Snapshot>)
    requires Wf(s)
    ensures r.Some? ==> Wf(r.value)
  {
    match e
    case WriteAddressed => Some(AddressMatch(s))
    case DataByte(b) => if Accepts(s, b) then ReceiveKeepsWf(s, b); Some(Receive(s, b)) else None
    case ReadAddressed => Some(AfterRead(s))
  }

  /** A sequence of bus events, first event first. */
  function Process(s: Snapshot, evs: seq<BusEvent>): (r: Option<Snapshot>)
    requires Wf(s)
    ensures r.Some? ==> Wf(r.value)
    decreases |evs|
  {
    if evs == [] then Some(s)
    else match Handle(s, evs[0])
      case None => None
      case Some(s') => Process(s', evs[1..])
  }

  // ---------------------------------------------------------------------------
  // The invariant is kept

  lemma ReceiveKeepsWf(s: Snapshot, b: byte)
    requires Accepts(s, b)
    ensures Wf(Receive(s, b))
  {
    if s.state == WaitPosition {
      RequestedCursorSpec(b);
    }
  }

  lemma StepKeepsWf(s: Snapshot)
    requires Wf(s)
    ensures Wf(Step(s))
  {}

  lemma AddressMatchKeepsInv(s: Snapshot)
    requires Inv(s)
    ensures Inv(AddressMatch(s))
  {}

  lemma WriteKeepsSynced(t: Text, b: byte, sc: Screen)
    requires t.Writable() && Synced(t, sc)
    ensures Synced(Write(t, b), sc)
  {
    WriteSpec(t, b);
  }

  lemma {:induction false} WriteAllKeepsSynced(t: Text, bs: seq<byte>, sc: Screen)
    requires t.Writable() && Synced(t, sc)
    ensures Synced(WriteAll(t, bs), sc)
    decreases |bs|
  {
    if bs != [] {
      WriteAllKeepsSynced(t, bs[..|bs| - 1], sc);
      WriteKeepsSynced(WriteAll(t, bs[..|bs| - 1]), bs[|bs| - 1], sc);
    }
  }

  lemma ClearedSynced(sc: Screen)
    ensures Synced(Cleared(), sc)
  {
    ClearedSpec();
  }

  lemma CommandKeepsInv(s: Snapshot, b: byte)
    requires Inv(s)
    ensures Inv(CommandByte(s, b))
  {
    if b == CLEAR {
      ClearedSynced(s.screen);
    } else if b == HIDECUR {
      SendCommandEffect(s.screen, DISPLAY_ON_CURSOR_OFF);
    } else if b == SHOWCUR {
      SendCommandEffect(s.screen, DISPLAY_ON_CURSOR_BLINK);
    }
  }

  lemma ReceiveKeepsInv(s: Snapshot, b: byte)
    requires Inv(s) && Accepts(s, b)
    ensures Inv(Receive(s, b))
  {
    match s.state
    case WaitCmd => CommandKeepsInv(s, b);
    case WaitValueLow => WriteAllKeepsSynced(s.text, Decimal.Digits(ValueOf(s.displayValue, b) as nat), s.screen);
    case WaitPosition => RequestedCursorSpec(b);
    case WaitShortText1 => WriteKeepsSynced(s.text, b, s.screen);
    case WaitShortText2 => WriteKeepsSynced(s.text, b, s.screen);
    case WaitShortText3 => WriteKeepsSynced(s.text, b, s.screen);
    case WaitShortText4 => WriteKeepsSynced(s.text, b, s.screen);
    case WaitCharacter => if b != 0 { WriteKeepsSynced(s.text, b, s.screen); }
    case _ =>
  }

  /** The refresh step keeps the invariant: the shadow cursor, the re-addressing at
      row boundaries and the dirty bit together keep the display in step. */
  lemma StepKeepsInv(s: Snapshot)
    requires Inv(s)
    ensures Inv(Step(s))
  {
    var i := s.screen.index;
    if i < 32 && TestBit(s.text.dirty, i as nat) {
      FlushEffect(s.screen, i, s.text.cells[i]);
      FlushSynced(s.text, s.screen, i);
    }
  }

  lemma HandleKeepsInv(s: Snapshot, e: BusEvent)
    requires Inv(s)
    ensures Handle(s, e).Some? ==> Inv(Handle(s, e).value)
  {
    match e
    case WriteAddressed => AddressMatchKeepsInv(s);
    case DataByte(b) => if Accepts(s, b) { ReceiveKeepsInv(s, b); }
    case ReadAddressed =>
  }

  /** Every sequence of bus events that the model accepts keeps the invariant. */
  lemma {:induction false} ProcessKeepsInv(s: Snapshot, evs: seq<BusEvent>)
    requires Inv(s)
    ensures Process(s, evs).Some? ==> Inv(Process(s, evs).value)
    decreases |evs|
  {
    if evs != [] {
      HandleKeepsInv(s, evs[0]);
      match Handle(s, evs[0])
      case None =>
      case Some(s') => ProcessKeepsInv(s', evs[1..]);
    }
  }

  /** Any number of refresh steps keeps the invariant. */
  lemma {:induction false} StepsKeepInv(s: Snapshot, n: nat)
    requires Inv(s)
    ensures Inv(Steps(s, n))
    decreases n
  {
    if n > 0 {
      StepKeepsInv(s);
      StepsKeepInv(Step(s), n - 1);
    }
  }

  // ---------------------------------------------------------------------------
  // Address match and read request

  /** An address match in WAIT_ADDRESS starts a command. In any other state a
      transaction was abandoned: the bus engine is reset, the state returns to
      WAIT_ADDRESS and nothing else changes, so the very next address match starts a
      command again. */
  lemma AddressMatchSpec(s: Snapshot)
    ensures s.state == WaitAddress ==> AddressMatch(s) == s.(state := WaitCmd)
    ensures s.state != WaitAddress ==>
      AddressMatch(s) == s.(state := WaitAddress, busResets := s.busResets + 1)
    ensures AddressMatch(s).state == WaitCmd || AddressMatch(AddressMatch(s)).state == WaitCmd
    ensures AddressMatch(s).text == s.text && AddressMatch(s).sensors == s.sensors
    ensures AddressMatch(s).screen == s.screen
  {}

  /** A read request is answered with the write cursor and ends the transaction. */
  lemma ReadRequestSpec(s: Snapshot)
    ensures ReadReply(s) == s.text.cursor
    ensures AfterRead(s).state == WaitAddress
    ensures AfterRead(s).(state := s.state) == s
  {}

  // ---------------------------------------------------------------------------
  // Command dispatch and payload bytes

  /** The dispatch table of WAIT_CMD: where each command byte leads, and that only
      CLEAR touches the text and only HIDECUR and SHOWCUR talk to the display. */
  lemma CommandSpec(s: Snapshot, b: byte)
    requires s.state == WaitCmd
    ensures Receive.requires(s, b) ==> Receive(s, b) == CommandByte(s, b)
    ensures b in {PING, CLEAR, HIDECUR, SHOWCUR} || !(1 <= b <= 10) ==> CommandByte(s, b).state == WaitAddress
    ensures b == DISPLAY_VALUE ==> CommandByte(s, b) == s.(state := WaitValueHigh)
    ensures b == DISPLAY_SHORT_TEXT ==> CommandByte(s, b) == s.(state := WaitShortText1)
    ensures b == DISPLAY_LONG_TEXT ==> CommandByte(s, b) == s.(state := WaitCharacter)
    ensures b == SETPOS ==> CommandByte(s, b) == s.(state := WaitPosition)
    ensures b == DISPLAY_UPDATE_SENSORS ==> CommandByte(s, b) == s.(state := ReadyForSensorHi)
    ensures b == GETPOS ==> CommandByte(s, b) == s
    ensures b == CLEAR ==> CommandByte(s, b) == s.(text := Cleared(), screen := Trigger(s.screen), state := WaitAddress)
    ensures b == HIDECUR ==>
      CommandByte(s, b) == s.(screen := s.screen.(log := s.screen.log + [Command(0x0C)]), state := WaitAddress)
    ensures b == SHOWCUR ==>
      CommandByte(s, b) == s.(screen := s.screen.(log := s.screen.log + [Command(0x0F)]), state := WaitAddress)
    ensures b !in {CLEAR, HIDECUR, SHOWCUR} ==> CommandByte(s, b) == s.(state := CommandByte(s, b).state)
  {}

  /** A character byte stores itself at the cursor, in LONG_TEXT and in each of the
      four SHORT_TEXT states; a 0 byte ends LONG_TEXT and writes nothing. */
  lemma CharacterSpec(s: Snapshot, b: byte)
    requires Accepts(s, b)
    requires s.state in {WaitCharacter, WaitShortText1, WaitShortText2, WaitShortText3, WaitShortText4}
    ensures b != 0 || s.state != WaitCharacter ==> Receive(s, b).text == Write(s.text, b)
    ensures s.state == WaitCharacter && b != 0 ==> Receive(s, b) == s.(text := Write(s.text, b))
    ensures s.state == WaitCharacter && b == 0 ==>
      Receive(s, b) == s.(screen := Trigger(s.screen), state := WaitAddress)
  {}

  /** The four SHORT_TEXT states each store their byte at the cursor and move to the
      next; the fourth restarts the refresh and ends the transaction. */
  lemma ShortTextSpec(s: Snapshot, b: byte)
    requires Accepts(s, b)
    ensures s.state == WaitShortText1 ==> Receive(s, b) == s.(text := Write(s.text, b), state := WaitShortText2)
    ensures s.state == WaitShortText2 ==> Receive(s, b) == s.(text := Write(s.text, b), state := WaitShortText3)
    ensures s.state == WaitShortText3 ==> Receive(s, b) == s.(text := Write(s.text, b), state := WaitShortText4)
    ensures s.state == WaitShortText4 ==>
      Receive(s, b) == s.(text := Write(s.text, b), screen := Trigger(s.screen), state := WaitAddress)
  {}

  /** DISPLAY_VALUE's two payload bytes: the high byte is kept shifted by 8, the low
      byte completes the value, whose decimal text is written at the cursor before the
      refresh restarts and the transaction ends. */
  lemma ValueBytesSpec(s: Snapshot, b: byte)
    requires Accepts(s, b)
    ensures s.state == WaitValueHigh ==>
      Receive(s, b) == s.(displayValue := (b as int * 256) as u16, state := WaitValueLow)
    ensures s.state == WaitValueLow ==>
      var v := ValueOf(s.displayValue, b);
      && v as int == (s.displayValue as int + b as int) % 0x1_0000
      && Receive(s, b) == s.(displayValue := v, text := WriteAll(s.text, Decimal.Digits(v as nat)),
                             screen := Trigger(s.screen), state := WaitAddress)
  {}

  /** UPDATE_SENSORS' two payload bytes: the first is kept, the second completes the
      update of the sensor table and ends the transaction. */
  lemma SensorBytesSpec(s: Snapshot, b: byte)
    requires Accepts(s, b)
    ensures s.state == ReadyForSensorHi ==>
      Receive(s, b) == s.(sensors := s.sensors.(pendingHi := b), state := ReadyForSensorLow)
    ensures s.state == ReadyForSensorLow ==>
      Receive(s, b) == s.(sensors := Sensors.Receive(s.sensors, b), state := WaitAddress)
  {}

  // ---------------------------------------------------------------------------
  // Whole transactions

  lemma ProcessCons(s: Snapshot, e: BusEvent, evs: seq<BusEvent>)
    requires Wf(s)
    ensures Process(s, [e] + evs) ==
      match Handle(s, e) case None => None case Some(s') => Process(s', evs)
  {
    assert ([e] + evs)[1..] == evs;
  }

  /** An address match for a write, then the rest. */
  lemma AddressStep(s: Snapshot, rest: seq<BusEvent>)
    requires Wf(s)
    ensures Wf(AddressMatch(s))
    ensures Process(s, [WriteAddressed] + rest) == Process(AddressMatch(s), rest)
  {
    ProcessCons(s, WriteAddressed, rest);
  }

  /** An accepted data byte, then the rest. */
  lemma ByteStep(s: Snapshot, b: byte, rest: seq<BusEvent>)
    requires Accepts(s, b)
    ensures Wf(Receive(s, b))
    ensures Process(s, [DataByte(b)] + rest) == Process(Receive(s, b), rest)
  {
    ReceiveKeepsWf(s, b);
    ProcessCons(s, DataByte(b), rest);
  }

  /** SHORT_TEXT: exactly four characters are written, then the refresh restarts and
      the transaction ends. */
  lemma ShortTextTransaction(s: Snapshot, a: byte, b: byte, c: byte, d: byte)
    requires Wf(s) && s.state == WaitAddress && s.text.Writable()
    ensures Process(s, [WriteAddressed, DataByte(DISPLAY_SHORT_TEXT), DataByte(a), DataByte(b), DataByte(c), DataByte(d)])
      == Some(s.(text := WriteAll(s.text, [a, b, c, d]), screen := Trigger(s.screen)))
  {
    var t1 := Write(s.text, a);
    var t2 := Write(t1, b);
    var t3 := Write(t2, c);
    var s1 := s.(state := WaitCmd);
    var s2 := s.(state := WaitShortText1);
    var s3 := s.(text := t1, state := WaitShortText2);
    var s4 := s.(text := t2, state := WaitShortText3);
    var s5 := s.(text := t3, state := WaitShortText4);
    var r5 := [DataByte(d)] + [];
    var r4 := [DataByte(c)] + r5;
    var r3 := [DataByte(b)] + r4;
    var r2 := [DataByte(a)] + r3;
    var r1 := [DataByte(DISPLAY_SHORT_TEXT)] + r2;
    assert [WriteAddressed, DataByte(DISPLAY_SHORT_TEXT), DataByte(a), DataByte(b), DataByte(c), DataByte(d)]
      == [WriteAddressed] + r1;
    AddressStep(s, r1);
    ByteStep(s1, DISPLAY_SHORT_TEXT, r2);
    CommandSpec(s1, DISPLAY_SHORT_TEXT);
    ByteStep(s2, a, r3);
    ShortTextSpec(s2, a);
    ByteStep(s3, b, r4);
    ShortTextSpec(s3, b);
    ByteStep(s4, c, r5);
    ShortTextSpec(s4, c);
    ByteStep(s5, d, []);
    ShortTextSpec(s5, d);
    var s6 := s.(text := Write(t3, d), screen := Trigger(s.screen));
    assert Process(s6, []) == Some(s6);
    WriteAllFour(s.text, a, b, c, d);
  }

  lemma WriteAllFour(t: Text, a: byte, b: byte, c: byte, d: byte)
    requires t.Writable()
    ensures WriteAll(t, [a, b, c, d]) == Write(Write(Write(Write(t, a), b), c), d)
  {
    assert [d] + [] == [d];
    assert [c] + [d] == [c, d];
    assert [b] + [c, d] == [b, c, d];
    assert [a] + [b, c, d] == [a, b, c, d];
    var t1 := Write(t, a);
    var t2 := Write(t1, b);
    var t3 := Write(t2, c);
    WriteAllCons(t3, d, []);
    WriteAllCons(t2, c, [d]);
    WriteAllCons(t1, b, [c, d]);
    WriteAllCons(t, a, [b, c, d]);
  }

  function DataBytes(bs: seq<byte>): (evs: seq<BusEvent>)
    ensures |evs| == |bs|
  {
    seq(|bs|, k requires 0 <= k < |bs| => DataByte(bs[k]))
  }

  /** In LONG_TEXT every non-zero byte is written at the cursor; the state stays. */
  lemma {:induction false} LongTextRun(s: Snapshot, bs: seq<byte>)
    requires Wf(s) && s.state == WaitCharacter && s.text.Writable()
    requires forall k :: 0 <= k < |bs| ==> bs[k] != 0
    ensures Process(s, DataBytes(bs)) == Some(s.(text := WriteAll(s.text, bs)))
    decreases |bs|
  {
    if bs != [] {
      var s1 := Receive(s, bs[0]);
      CharacterSpec(s, bs[0]);
      ReceiveKeepsWf(s, bs[0]);
      assert Handle(s, DataByte(bs[0])) == Some(s1);
      assert DataBytes(bs) == [DataByte(bs[0])] + DataBytes(bs[1..]);
      ProcessCons(s, DataByte(bs[0]), DataBytes(bs[1..]));
      LongTextRun(s1, bs[1..]);
      WriteAllCons(s.text, bs[0], bs[1..]);
      assert [bs[0]] + bs[1..] == bs;
    }
  }

  lemma {:induction false} WriteAllCons(t: Text, b: byte, bs: seq<byte>)
    requires t.Writable()
    ensures WriteAll(t, [b] + bs) == WriteAll(Write(t, b), bs)
    decreases |bs|
  {
    if bs == [] {
      assert ([b] + bs)[..0] == [];
    } else {
      var n := |bs| - 1;
      assert ([b] + bs)[..n + 1] == [b] + bs[..n];
      WriteAllCons(t, b, bs[..n]);
    }
  }

  /** LONG_TEXT c1 .. cn 0: the characters are written in order at consecutive wrapped
      positions (for at most 32 of them exactly those positions become dirty, see
      WriteAllSpec), then the refresh restarts and the transaction ends. */
  lemma LongTextTransaction(s: Snapshot, bs: seq<byte>)
    requires Wf(s) && s.state == WaitAddress && s.text.Writable()
    requires forall k :: 0 <= k < |bs| ==> bs[k] != 0
    ensures Process(s, [WriteAddressed, DataByte(DISPLAY_LONG_TEXT)] + DataBytes(bs) + [DataByte(0)])
      == Some(s.(text := WriteAll(s.text, bs), screen := Trigger(s.screen)))
  {
    var s1 := AddressMatch(s);
    var s2 := Receive(s1, DISPLAY_LONG_TEXT);
    ReceiveKeepsWf(s1, DISPLAY_LONG_TEXT);
    var evs := [WriteAddressed, DataByte(DISPLAY_LONG_TEXT)] + DataBytes(bs) + [DataByte(0)];
    assert evs == [WriteAddressed] + ([DataByte(DISPLAY_LONG_TEXT)] + (DataBytes(bs) + [DataByte(0)]));
    ProcessCons(s, WriteAddressed, [DataByte(DISPLAY_LONG_TEXT)] + (DataBytes(bs) + [DataByte(0)]));
    ProcessCons(s1, DataByte(DISPLAY_LONG_TEXT), DataBytes(bs) + [DataByte(0)]);
    ProcessAppend(s2, DataBytes(bs), [DataByte(0)]);
    LongTextRun(s2, bs);
    var s3 := s2.(text := WriteAll(s.text, bs));
    ProcessCons(s3, DataByte(0), []);
  }

  lemma {:induction false} ProcessAppend(s: Snapshot, evs: seq<BusEvent>, more: seq<BusEvent>)
    requires Wf(s)
    ensures Process(s, evs + more) ==
      match Process(s, evs) case None => None case Some(s') => Process(s', more)
    decreases |evs|
  {
    if evs == [] {
      assert evs + more == more;
    } else {
      assert (evs + more)[0] == evs[0];
      assert (evs + more)[1..] == evs[1..] + more;
      match Handle(s, evs[0])
      case None =>
      case Some(s') => ProcessAppend(s', evs[1..], more);
    }
  }

  /** DISPLAY_VALUE hi lo: the decimal text of hi*256+lo (one to five digits, no
      leading zero) is written at consecutive wrapped positions, then the refresh
      restarts and the transaction ends. */
  lemma DisplayValueTransaction(s: Snapshot, hi: byte, lo: byte)
    requires Wf(s) && s.state == WaitAddress && s.text.Writable()
    ensures var v := hi as int * 256 + lo as int;
      && 1 <= |Decimal.Digits(v)| <= 5
      && Decimal.Value(Decimal.Digits(v)) == v
      && Decimal.Canonical(Decimal.Digits(v))
      && Process(s, [WriteAddressed, DataByte(DISPLAY_VALUE), DataByte(hi), DataByte(lo)])
         == Some(s.(text := WriteAll(s.text, Decimal.Digits(v)), displayValue := v as u16, screen := Trigger(s.screen)))
  {
    var v := hi as int * 256 + lo as int;
    Decimal.DigitsOf16Bit(v as u16);
    Decimal.ValueOfDigits(v);
    Decimal.DigitsCanonical(v);
    assert ValueOf((hi as int * 256) as u16, lo) as int == v;
    DisplayValueEvents(s, hi, lo);
  }

  /** The events of DISPLAY_VALUE hi lo, one at a time. */
  lemma DisplayValueEvents(s: Snapshot, hi: byte, lo: byte)
    requires Wf(s) && s.state == WaitAddress && s.text.Writable()
    ensures var v := ValueOf((hi as int * 256) as u16, lo);
      Process(s, [WriteAddressed, DataByte(DISPLAY_VALUE), DataByte(hi), DataByte(lo)])
      == Some(s.(text := WriteAll(s.text, Decimal.Digits(v as nat)), displayValue := v, screen := Trigger(s.screen)))
  {
    var s1 := s.(state := WaitCmd);
    var s2 := s.(state := WaitValueHigh);
    var s3 := s.(displayValue := (hi as int * 256) as u16, state := WaitValueLow);
    assert [WriteAddressed, DataByte(DISPLAY_VALUE), DataByte(hi), DataByte(lo)]
      == [WriteAddressed] + ([DataByte(DISPLAY_VALUE)] + ([DataByte(hi)] + ([DataByte(lo)] + [])));
    AddressStep(s, [DataByte(DISPLAY_VALUE)] + ([DataByte(hi)] + ([DataByte(lo)] + [])));
    ByteStep(s1, DISPLAY_VALUE, [DataByte(hi)] + ([DataByte(lo)] + []));
    CommandSpec(s1, DISPLAY_VALUE);
    ByteStep(s2, hi, [DataByte(lo)] + []);
    ValueBytesSpec(s2, hi);
    ByteStep(s3, lo, []);
    ValueBytesSpec(s3, lo);
  }

  /** Two DISPLAY_VALUE payloads: 0x00 0x07 prints as the single character '7', and
      0x03 0xE8 (1000) as four characters. */
  lemma DisplayValueExamples()
    ensures Decimal.Digits(0x00 * 256 + 0x07) == [55]
    ensures Decimal.Digits(0x03 * 256 + 0xE8) == [49, 48, 48, 48]
  {}

  /** SETPOS p: the cursor becomes RequestedCursor(p) and nothing else changes. */
  lemma SetPosTransaction(s: Snapshot, p: byte)
    requires Wf(s) && s.state == WaitAddress
    ensures Process(s, [WriteAddressed, DataByte(SETPOS), DataByte(p)])
      == Some(s.(text := s.text.(cursor := RequestedCursor(p))))
  {
    var s1 := s.(state := WaitCmd);
    var s2 := s.(state := WaitPosition);
    assert [WriteAddressed, DataByte(SETPOS), DataByte(p)] == [WriteAddressed] + ([DataByte(SETPOS)] + ([DataByte(p)] + []));
    AddressStep(s, [DataByte(SETPOS)] + ([DataByte(p)] + []));
    ByteStep(s1, SETPOS, [DataByte(p)] + []);
    CommandSpec(s1, SETPOS);
    ByteStep(s2, p, []);
  }

  /** SETPOS 33 puts the cursor at 32, and the next character of a LONG_TEXT command
      would be stored outside the 32 cells: the model does not accept that byte. */
  lemma SetPos33Overruns(s: Snapshot, ch: byte)
    requires Wf(s) && s.state == WaitAddress && ch != 0
    ensures Process(s, [WriteAddressed, DataByte(SETPOS), DataByte(33), WriteAddressed, DataByte(DISPLAY_LONG_TEXT), DataByte(ch)]) == None
  {
    var s3 := s.(text := s.text.(cursor := RequestedCursor(33)));
    SetPosTransaction(s, 33);
    assert s3.text.cursor == 32;
    var tail := [WriteAddressed, DataByte(DISPLAY_LONG_TEXT), DataByte(ch)];
    assert [WriteAddressed, DataByte(SETPOS), DataByte(33)] + tail ==
      [WriteAddressed, DataByte(SETPOS), DataByte(33), WriteAddressed, DataByte(DISPLAY_LONG_TEXT), DataByte(ch)];
    ProcessAppend(s, [WriteAddressed, DataByte(SETPOS), DataByte(33)], tail);
    var s4 := AddressMatch(s3);
    var s5 := Receive(s4, DISPLAY_LONG_TEXT);
    ProcessCons(s3, WriteAddressed, [DataByte(DISPLAY_LONG_TEXT), DataByte(ch)]);
    ProcessCons(s4, DataByte(DISPLAY_LONG_TEXT), [DataByte(ch)]);
    assert !Accepts(s5, ch);
  }

  /** GETPOS: the command byte leaves the state in WAIT_CMD, and the master's read
      request that follows is answered with the write cursor. */
  lemma GetPosTransaction(s: Snapshot)
    requires Wf(s) && s.state == WaitAddress
    ensures Process(s, [WriteAddressed, DataByte(GETPOS)]) == Some(s.(state := WaitCmd))
    ensures Process(s, [WriteAddressed, DataByte(GETPOS), ReadAddressed]) == Some(s)
    ensures ReadReply(s.(state := WaitCmd)) == s.text.cursor
  {
    var s1 := AddressMatch(s);
    ProcessCons(s, WriteAddressed, [DataByte(GETPOS)]);
    ProcessCons(s1, DataByte(GETPOS), []);
    ProcessCons(s, WriteAddressed, [DataByte(GETPOS), ReadAddressed]);
    ProcessCons(s1, DataByte(GETPOS), [ReadAddressed]);
    ProcessCons(s1, ReadAddressed, []);
  }

  /** UPDATE_SENSORS hi lo: one sensor update (see Sensors.ReceiveSpec). */
  lemma SensorTransaction(s: Snapshot, hi: byte, lo: byte)
    requires Wf(s) && s.state == WaitAddress
    ensures Process(s, [WriteAddressed, DataByte(DISPLAY_UPDATE_SENSORS), DataByte(hi), DataByte(lo)])
      == Some(s.(sensors := Sensors.Update(s.sensors, hi, lo)))
  {
    var s1 := s.(state := WaitCmd);
    var s2 := s.(state := ReadyForSensorHi);
    var s3 := s.(sensors := s.sensors.(pendingHi := hi), state := ReadyForSensorLow);
    assert [WriteAddressed, DataByte(DISPLAY_UPDATE_SENSORS), DataByte(hi), DataByte(lo)]
      == [WriteAddressed] + ([DataByte(DISPLAY_UPDATE_SENSORS)] + ([DataByte(hi)] + ([DataByte(lo)] + [])));
    AddressStep(s, [DataByte(DISPLAY_UPDATE_SENSORS)] + ([DataByte(hi)] + ([DataByte(lo)] + [])));
    ByteStep(s1, DISPLAY_UPDATE_SENSORS, [DataByte(hi)] + ([DataByte(lo)] + []));
    CommandSpec(s1, DISPLAY_UPDATE_SENSORS);
    ByteStep(s2, hi, [DataByte(lo)] + []);
    SensorBytesSpec(s2, hi);
    ByteStep(s3, lo, []);
    SensorBytesSpec(s3, lo);
  }

  // ---------------------------------------------------------------------------
  // The refresh step and full refresh

  /** One step. At index 32 it only disables the timer. A clean position is skipped:
      nothing is sent and the mask is unchanged. A dirty position i loses its dirty
      bit (no other bit changes); the display is re-addressed when the shadow differs
      from i, and always at 16; then exactly one data byte, the cell's character, is
      sent and the shadow is i + 1. The index always moves on. */
  lemma StepSpec(s: Snapshot)
    requires Wf(s)
    ensures var r, sc, i := Step(s), s.screen, s.screen.index;
      && r.state == s.state && r.sensors == s.sensors && r.displayValue == s.displayValue
      && r.busResets == s.busResets && r.text.cells == s.text.cells && r.text.cursor == s.text.cursor
      && (i == 32 ==> r == s.(screen := sc.(timerOn := false)))
      && (i < 32 && !TestBit(s.text.dirty, i as nat) ==> r == s.(screen := sc.(index := i + 1)))
      && (i < 32 && TestBit(s.text.dirty, i as nat) ==>
            && (forall j :: 0 <= j < SIZE ==> (TestBit(r.text.dirty, j) <==> j != i as nat && TestBit(s.text.dirty, j)))
            && r.screen.log == sc.log
                 + (if i != sc.hw then [Command(SetAddressInstruction(i))] else [])
                 + (if i == 16 then [Command(0xC0)] else [])
                 + [Data(Glyph(s.text.cells[i]))]
            && r.screen.hw == i + 1 && r.screen.index == i + 1 && r.screen.timerOn == sc.timerOn)
  {
    var sc, i := s.screen, s.screen.index;
    if i < 32 && TestBit(s.text.dirty, i as nat) {
      assert Readdress(sc, i).log == sc.log
        + (if i != sc.hw then [Command(SetAddressInstruction(i))] else [])
        + (if i == 16 then [Command(0xC0)] else []);
    }
  }

  /** A step sends one character exactly when the position under the index is dirty. */
  lemma StepDataCount(s: Snapshot)
    requires Wf(s)
    ensures DataCount(Step(s).screen.log) ==
      DataCount(s.screen.log) + (if s.screen.index < 32 && TestBit(s.text.dirty, s.screen.index as nat) then 1 else 0)
  {
    var i := s.screen.index;
    if i < 32 && TestBit(s.text.dirty, i as nat) {
      FlushDataCount(s.screen, i, s.text.cells[i]);
    }
  }

  lemma {:induction false} StepsSplit(s: Snapshot, m: nat, n: nat)
    requires Wf(s)
    ensures Steps(s, m + n) == Steps(Steps(s, m), n)
    decreases m
  {
    if m > 0 {
      StepKeepsWf(s);
      StepsSplit(Step(s), m - 1, n);
    }
  }

  /** A step before the end of the scan: the index moves on, only the bit under the
      index may be cleared, and only the dirty mask and the screen change. */
  lemma ScanStep(s: Snapshot)
    requires Wf(s) && s.screen.index < 32
    ensures var r, k := Step(s), s.screen.index as nat;
      && r == s.(text := s.text.(dirty := r.text.dirty), screen := r.screen)
      && r.screen.index as nat == k + 1 && r.screen.timerOn == s.screen.timerOn
      && (forall j :: 0 <= j < SIZE ==> (TestBit(r.text.dirty, j) <==> j != k && TestBit(s.text.dirty, j)))
  {}

  /** The scan from index k to the end: it clears every dirty bit at k..31 and keeps
      the ones below k, sends one character per dirty position at k..31 and changes
      nothing else. */
  lemma {:induction false} ScanFrom(s: Snapshot, k: nat)
    requires Inv(s) && s.screen.index as nat == k <= 32
    ensures var t := Steps(s, 32 - k);
      && Inv(t)
      && t.screen.index == 32 && t.screen.timerOn == s.screen.timerOn
      && t == s.(text := s.text.(dirty := t.text.dirty), screen := t.screen)
      && (forall j :: 0 <= j < SIZE ==> (TestBit(t.text.dirty, j) <==> j < k && TestBit(s.text.dirty, j)))
      && DataCount(t.screen.log) == DataCount(s.screen.log) + CountFrom(s.text.dirty, k)
    decreases 32 - k
  {
    if k < 32 {
      var s1 := Step(s);
      StepKeepsInv(s);
      ScanStep(s);
      StepDataCount(s);
      ScanFrom(s1, k + 1);
      assert Steps(s, 32 - k) == Steps(s1, 32 - (k + 1));
      CountFromAgree(s.text.dirty, s1.text.dirty, k + 1);
    }
  }

  /** From scan index 0 with no further bus traffic, 33 refresh steps clear the whole
      mask, send exactly as many characters as there were dirty bits, disable the
      timer, and leave the display showing the whole buffer. Any further step sends
      nothing. */
  lemma FullRefresh(s: Snapshot)
    requires Inv(s) && s.screen.index == 0
    ensures var t := Steps(s, 33);
      && t.text.dirty == Zero(SIZE)
      && DataCount(t.screen.log) == DataCount(s.screen.log) + PopCount(s.text.dirty)
      && DataCount(t.screen.log) <= DataCount(s.screen.log) + SIZE
      && !t.screen.timerOn
      && t == s.(text := s.text.(dirty := Zero(SIZE)), screen := t.screen)
      && (forall j :: 0 <= j < SIZE ==>
            Ddram(j) in PanelOf(t.screen.log).ddram && PanelOf(t.screen.log).ddram[Ddram(j)] == Glyph(s.text.cells[j]))
      && (forall n :: Steps(t, n).screen.log == t.screen.log)
  {
    var u := Steps(s, 32);
    CountFromBounds(s.text.dirty, 0);
    ScanFrom(s, 0);
    LastStep(s);
    var t := Step(u);
    FinishScan(u);
    AllClean(t);
    forall n: nat
      ensures Steps(t, n).screen.log == t.screen.log
    {
      Idle(t, n);
    }
  }

  /** The 33rd step comes after the 32 of the scan. */
  lemma LastStep(s: Snapshot)
    requires Wf(s)
    ensures Steps(s, 33) == Step(Steps(s, 32))
  {
    StepsSplit(s, 32, 1);
  }

  /** The step at index 32 disables the timer and changes nothing else. */
  lemma FinishScan(u: Snapshot)
    requires Inv(u) && u.screen.index == 32
    ensures Step(u) == u.(screen := u.screen.(timerOn := false))
    ensures Inv(Step(u))
  {
    StepKeepsInv(u);
  }

  /** With no dirty bit, the mask is 0 and the display shows the whole buffer. */
  lemma AllClean(t: Snapshot)
    requires Inv(t) && forall j :: 0 <= j < SIZE ==> !TestBit(t.text.dirty, j)
    ensures t.text.dirty == Zero(SIZE)
    ensures forall j :: 0 <= j < SIZE ==>
      Ddram(j) in PanelOf(t.screen.log).ddram && PanelOf(t.screen.log).ddram[Ddram(j)] == Glyph(t.text.cells[j])
  {
    ZeroIffNoBit(t.text.dirty);
  }

  /** At index 32 the refresh is finished: every further step sends nothing and
      changes nothing but the timer flag. */
  lemma {:induction false} Idle(s: Snapshot, n: nat)
    requires Wf(s) && s.screen.index == 32
    ensures Steps(s, n).screen.log == s.screen.log
    ensures Steps(s, n).text == s.text
    decreases n
  {
    if n > 0 {
      Idle(Step(s), n - 1);
    }
  }

  /** With no dirty bit left, a step sends nothing, whatever the index. */
  lemma CleanStepSilent(s: Snapshot)
    requires Wf(s) && s.text.dirty == Zero(SIZE)
    ensures Step(s).screen.log == s.screen.log && Step(s).text == s.text
  {
    if s.screen.index < 32 {
      ZeroIffNoBit(s.text.dirty);
    }
  }

  /** CLEAR followed by a full refresh: 32 blanks are sent, the mask ends empty and the
      display shows 32 blanks. */
  lemma ClearThenRefresh(s: Snapshot)
    requires Inv(s) && s.state == WaitCmd
    ensures Inv(Receive(s, CLEAR))
    ensures var t := Steps(Receive(s, CLEAR), 33);
      && t.text.dirty == Zero(SIZE)
      && DataCount(t.screen.log) == DataCount(s.screen.log) + 32
      && forall j :: 0 <= j < SIZE ==>
           Ddram(j) in PanelOf(t.screen.log).ddram && PanelOf(t.screen.log).ddram[Ddram(j)] == BLANK
  {
    ReceiveKeepsInv(s, CLEAR);
    CommandSpec(s, CLEAR);
    RefreshCleared(Receive(s, CLEAR));
  }

  lemma RefreshCleared(c: Snapshot)
    requires Inv(c) && c.text == Cleared() && c.screen.index == 0
    ensures var t := Steps(c, 33);
      && t.text.dirty == Zero(SIZE)
      && DataCount(t.screen.log) == DataCount(c.screen.log) + 32
      && forall j :: 0 <= j < SIZE ==>
           Ddram(j) in PanelOf(t.screen.log).ddram && PanelOf(t.screen.log).ddram[Ddram(j)] == BLANK
  {
    ClearedSpec();
    FullRefresh(c);
    var t := Steps(c, 33);
    var d := PanelOf(t.screen.log).ddram;
    forall j | 0 <= j < SIZE
      ensures Ddram(j) in d && d[Ddram(j)] == BLANK
    {
      assert c.text.cells[j] == BLANK;
    }
  }
}
