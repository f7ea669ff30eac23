/** The character display as the firmware drives it: an HD44780-compatible controller
    in two-line mode. The firmware only ever sends it a byte over the 8-bit bus, either
    as an instruction (register select low) or as character data (register select
    high); the strobe and delay traffic around each byte is not modelled. The meaning
    of that byte stream is given by `Run`, which tracks the controller's address
    counter and the display data RAM that the firmware writes. */
module Hd44780 {
  import opened Machine

  /** One byte sent to the controller: `output_b` with RS low (`Command`) or high (`Data`). */
  datatype Event = Command(code: byte) | Data(code: byte)

  /** The instruction `hideCursor` sends: display on, cursor off, blink off. */
  const DISPLAY_ON_CURSOR_OFF: byte := 0x0C
  /** The instruction `showCursor` sends: display on, cursor on, blink on. */
  const DISPLAY_ON_CURSOR_BLINK: byte := 0x0F
  /** The instruction `twoDisplay` sends: function set, 8-bit bus, two lines. */
  const FUNCTION_SET_TWO_LINES: byte := 0x38

  /** The "Set DDRAM address" instruction `setPosition` sends for a linear position:
      `0x80 + 0x40 * !!(pos & 0x10) + (pos & 0x0F)`, written with `/` and `%`
      (bit 4 of pos is `(pos / 16) % 2`, its low nibble is `pos % 16`). */
  function SetAddressInstruction(pos: byte): (r: byte)
    ensures 0x80 <= r <= 0xCF
  {
    (0x80 + 0x40 * ((pos / 16) % 2) + pos % 16) as byte
  }

  /** Where linear buffer position pos (0..31) lives in display data RAM: row 1 is
      0x00..0x0F, row 2 starts at 0x40. */
  function Ddram(pos: nat): (a: nat)
    requires pos < 32
    ensures a < 0x10 || 0x40 <= a < 0x50
  {
    if pos < 16 then pos else 0x40 + (pos - 16)
  }

  /** The linear position of a visible data RAM address (the inverse of Ddram). */
  function PositionOf(a: nat): nat {
    if a < 0x40 then a else 16 + (a - 0x40)
  }

  /** For every buffer position the instruction addresses exactly Ddram(pos), and the
      address decodes back to pos, so distinct positions never share a cell. */
  lemma SetAddressInstructionAddresses(pos: byte)
    requires pos < 32
    ensures SetAddressInstruction(pos) as int == 0x80 + Ddram(pos as nat)
    ensures PositionOf(Ddram(pos as nat)) == pos as nat
  {}

  lemma DdramInjective(i: nat, j: nat)
    requires i < 32 && j < 32 && i != j
    ensures Ddram(i) != Ddram(j)
  {
    assert PositionOf(Ddram(i)) == i && PositionOf(Ddram(j)) == j;
  }

  /** The controller's state as far as the firmware relies on it: the address
      counter and the data RAM cells written so far (a cell not in the map holds
      whatever it held at power-on). */
  datatype Panel = Panel(ac: nat, ddram: map<nat, byte>)

  /** The panel before initialisation: address counter and contents unknown. */
  const POWER_ON := Panel(0, map[])

  /** Auto-increment of the address counter after a data write in two-line mode:
      0x27 is followed by 0x40 and 0x67 by 0x00. */
  function NextAc(a: nat): nat {
    if a == 0x27 then 0x40 else if a == 0x67 then 0 else (a + 1) % 0x80
  }

  /** Writing one character moves from one buffer position to the next one only
      inside a row: after position 15 the counter sits at 0x10, not at row 2. */
  lemma NextAcAlongRow(pos: nat)
    requires pos < 31
    ensures NextAc(Ddram(pos)) == Ddram(pos + 1) <==> pos != 15
  {}

  /** The effect of one byte on the panel. Of the instructions, only "Set DDRAM
      address" (0x80 and above) moves the counter; display control (0x0C, 0x0F) and
      function set (0x38), the only others this firmware sends, leave counter and
      data RAM alone. A data byte is stored at the counter, which then increments. */
  function Apply(p: Panel, e: Event): Panel {
    match e
    case Command(c) => if c >= 0x80 then p.(ac := c as nat - 0x80) else p
    case Data(c) => Panel(NextAc(p.ac), p.ddram[p.ac := c])
  }

  /** The panel after the whole byte stream, oldest byte first. */
  function Run(p: Panel, log: seq<Event>): Panel
    decreases |log|
  {
    if log == [] then p else Apply(Run(p, log[..|log| - 1]), log[|log| - 1])
  }

  lemma RunSnoc(p: Panel, log: seq<Event>, e: Event)
    ensures Run(p, log + [e]) == Apply(Run(p, log), e)
  {
    assert (log + [e])[..|log|] == log;
  }

  /** The panel the firmware has produced with the byte stream it has sent. */
  function PanelOf(log: seq<Event>): Panel {
    Run(POWER_ON, log)
  }

  /** The number of characters written (data bytes) in a byte stream. */
  function DataCount(log: seq<Event>): nat
    decreases |log|
  {
    if log == [] then 0 else DataCount(log[..|log| - 1]) + (if log[|log| - 1].Data? then 1 else 0)
  }

  lemma DataCountSnoc(log: seq<Event>, e: Event)
    ensures DataCount(log + [e]) == DataCount(log) + (if e.Data? then 1 else 0)
  {
    assert (log + [e])[..|log|] == log;
  }
}
