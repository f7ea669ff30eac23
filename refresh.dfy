/** The display side of the firmware: the refresh scan index
    `gblDisplayBufferIndex`, the shadow of the display's cursor
    `gblDisplayModuleCursorPos`, whether the refresh timer interrupt is enabled, and
    the bytes sent to the display so far; with `setPosition`, `type` and
    `triggerScreenUpdate`, and the two facts the refresh step relies on: the shadow
    cursor tracks the display's address counter, and a clean buffer position is on
    the display. */
module Refresh {
  import opened Machine
  import opened Hd44780
  import opened TextBuffer

  datatype Screen = Screen(index: byte, hw: byte, timerOn: bool, log: seq<Event>) {
    predicate Valid() {
      index as nat <= SIZE && hw as nat <= SIZE
    }
  }

  /** `type` shows the terminator '\0' as a blank. */
  function Glyph(ch: byte): (g: byte)
    ensures g != 0
    ensures ch == 0 ==> g == BLANK
    ensures ch != 0 ==> g == ch
  {
    if ch == 0 then BLANK else ch
  }

  /** `setPosition(pos)`: one "Set DDRAM address" instruction; the shadow becomes pos. */
  function SetPosition(sc: Screen, pos: byte): Screen {
    sc.(log := sc.log + [Command(SetAddressInstruction(pos))], hw := pos)
  }

  /** `type(ch)`: one data byte; the shadow moves on by one (8-bit counter). */
  function Type(sc: Screen, ch: byte): Screen {
    sc.(log := sc.log + [Data(Glyph(ch))], hw := ((sc.hw as int + 1) % 256) as byte)
  }

  /** `hideCursor` / `showCursor`: one display-control instruction. */
  function SendCommand(sc: Screen, code: byte): Screen {
    sc.(log := sc.log + [Command(code)])
  }

  /** `triggerScreenUpdate`: restart the scan at position 0 and enable the timer. */
  function Trigger(sc: Screen): (r: Screen)
    ensures r.index == 0 && r.timerOn && r.hw == sc.hw && r.log == sc.log
  {
    sc.(index := 0, timerOn := true)
  }

  /** The shadow cursor is where the display's address counter points, except at 16
      (the counter may still be at the end of row 1) and at 32 (past the buffer). */
  predicate Tracks(sc: Screen) {
    sc.hw < 32 && sc.hw != 16 ==> PanelOf(sc.log).ac == Ddram(sc.hw as nat)
  }

  /** Every buffer position whose dirty bit is clear shows its character on the display. */
  predicate Synced(t: Text, sc: Screen)
    requires t.Valid()
  {
    forall i :: 0 <= i < SIZE && !TestBit(t.dirty, i) ==>
      Ddram(i) in PanelOf(sc.log).ddram && PanelOf(sc.log).ddram[Ddram(i)] == Glyph(t.cells[i])
  }

  /** After `setPosition(pos)` the address counter is at pos's cell, the data RAM is
      unchanged and the shadow equals pos, so the shadow tracks the counter. */
  lemma SetPositionEffect(sc: Screen, pos: byte)
    requires pos < 32
    ensures PanelOf(SetPosition(sc, pos).log) == PanelOf(sc.log).(ac := Ddram(pos as nat))
    ensures SetPosition(sc, pos).hw == pos
  {
    RunSnoc(POWER_ON, sc.log, Command(SetAddressInstruction(pos)));
    SetAddressInstructionAddresses(pos);
  }

  /** After `type(ch)` the cell under the address counter holds ch (a blank for '\0')
      and the counter has moved on. */
  lemma TypeEffect(sc: Screen, ch: byte)
    ensures var p := PanelOf(sc.log);
      PanelOf(Type(sc, ch).log) == Panel(NextAc(p.ac), p.ddram[p.ac := Glyph(ch)])
  {
    RunSnoc(POWER_ON, sc.log, Data(Glyph(ch)));
  }

  /** A display-control instruction changes neither the counter nor the data RAM. */
  lemma SendCommandEffect(sc: Screen, code: byte)
    requires code < 0x80
    ensures PanelOf(SendCommand(sc, code).log) == PanelOf(sc.log)
  {
    RunSnoc(POWER_ON, sc.log, Command(code));
  }

  /** The re-addressing `updateScreen` does before it writes position i: a
      `setPosition(i)` when the shadow is elsewhere, and always one at position 16,
      where the counter may still be at the end of row 1. */
  function Readdress(sc: Screen, i: byte): Screen {
    var sc1 := if i != sc.hw then SetPosition(sc, i) else sc;
    if i == 16 then SetPosition(sc1, 16) else sc1
  }

  /** Writing dirty position i: the re-addressing, one `type`, and the scan index
      moves to i + 1. */
  function Flush(sc: Screen, i: byte, ch: byte): Screen
    requires i < 32
  {
    Type(Readdress(sc, i), ch).(index := i + 1)
  }

  /** After the re-addressing the address counter is at position i's cell, whatever
      the shadow was, as long as it tracked the counter. */
  lemma ReaddressEffect(sc: Screen, i: byte)
    requires i < 32 && Tracks(sc)
    ensures PanelOf(Readdress(sc, i).log) == PanelOf(sc.log).(ac := Ddram(i as nat))
  {
    var sc1 := if i != sc.hw then SetPosition(sc, i) else sc;
    if i != sc.hw {
      SetPositionEffect(sc, i);
    }
    if i == 16 {
      SetPositionEffect(sc1, 16);
    }
  }

  /** Flushing position i stores the glyph of ch in i's cell and nothing else, and the
      shadow, now i + 1, still tracks the counter. */
  lemma FlushEffect(sc: Screen, i: byte, ch: byte)
    requires i < 32 && Tracks(sc)
    ensures var r := Flush(sc, i, ch);
      && PanelOf(r.log).ddram == PanelOf(sc.log).ddram[Ddram(i as nat) := Glyph(ch)]
      && r.hw == i + 1
      && Tracks(r)
  {
    var sc2 := Readdress(sc, i);
    ReaddressEffect(sc, i);
    TypeEffect(sc2, ch);
    if i as nat + 1 < 32 && i as nat + 1 != 16 {
      NextAcAlongRow(i as nat);
    }
  }

  /** Flushing position i and clearing its dirty bit keeps every clean position on the
      display. */
  lemma FlushSynced(t: Text, sc: Screen, i: byte)
    requires t.Valid() && i < 32 && Tracks(sc) && Synced(t, sc)
    ensures Synced(t.(dirty := ClearBit(t.dirty, i as nat)), Flush(sc, i, t.cells[i]))
  {
    var r := Flush(sc, i, t.cells[i]);
    var t' := t.(dirty := ClearBit(t.dirty, i as nat));
    FlushEffect(sc, i, t.cells[i]);
    var d0, d1 := PanelOf(sc.log).ddram, PanelOf(r.log).ddram;
    forall j | 0 <= j < SIZE && !TestBit(t'.dirty, j)
      ensures Ddram(j) in d1 && d1[Ddram(j)] == Glyph(t'.cells[j])
    {
      if j != i as nat {
        DdramInjective(i as nat, j);
      }
    }
  }

  /** A flush sends exactly one data byte. */
  lemma FlushDataCount(sc: Screen, i: byte, ch: byte)
    requires i < 32
    ensures DataCount(Flush(sc, i, ch).log) == DataCount(sc.log) + 1
  {
    var sc1 := if i != sc.hw then SetPosition(sc, i) else sc;
    if i != sc.hw {
      DataCountSnoc(sc.log, Command(SetAddressInstruction(i)));
    }
    if i == 16 {
      DataCountSnoc(sc1.log, Command(SetAddressInstruction(16)));
    }
    DataCountSnoc(Readdress(sc, i).log, Data(Glyph(ch)));
  }
}
