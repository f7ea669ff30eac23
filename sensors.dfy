/** Sensor reassembly: the bus master sends, for each sensor port whose reading
    changed, a high byte with the port in its top three bits and the reading's two
    top bits in its two low bits, and a low byte with the reading's eight low bits.
    The firmware keeps the eight readings (`gblSensorValues`), the set of ports
    received in the current cycle (`gblUpdatedSensors`), the last port received
    (`gblLastSensorReceived`) and the pending high byte (`gblSensorBufferHi`). */
module Sensors {
  import opened Machine

  const PORTS: nat := 8
  /** The reading given to a port that was not sent in a cycle. */
  const SENTINEL: u16 := 1023

  datatype Table = Table(values: seq<u16>, updated: Bits, last: byte, pendingHi: byte) {
    predicate Valid() {
      |values| == PORTS && |updated| == PORTS
    }
  }

  /** `gblSensorBufferHi >> 5`: the port named by a high byte. */
  function Port(hi: byte): (p: nat)
    ensures p < PORTS
  {
    hi as nat / 32
  }

  /** `((gblSensorBufferHi & 0b00000011) << 8) + gblSensorBufferLow`, read with C's
      promotion of the operands to `int` before the shift (see README). */
  function Reading(hi: byte, lo: byte): (v: u16)
    ensures v <= SENTINEL
  {
    ((hi as int % 4) * 256 + lo as int) as u16
  }

  /** The master's packing of a port and a 10-bit reading into the two bytes. */
  function EncodeHi(port: nat, value: nat): byte
    requires port < PORTS && value <= 1023
  {
    (port * 32 + value / 256) as byte
  }

  function EncodeLo(value: nat): byte
    requires value <= 1023
  {
    (value % 256) as byte
  }

  /** Decoding recovers every port and 10-bit reading the master can send. */
  lemma DecodeEncode(port: nat, value: nat)
    requires port < PORTS && value <= 1023
    ensures Port(EncodeHi(port, value)) == port
    ensures Reading(EncodeHi(port, value), EncodeLo(value)) as nat == value
  {
    var q, r := value / 256, value % 256;
    assert value == q * 256 + r && q < 4;
    var h := 32 * port + q;
    assert h == 4 * (8 * port) + q;
    assert h / 32 == port && h % 4 == q;
  }

  /** The decoding ignores bits 2..4 of the high byte: it is onto the pairs
      (port, reading), and two high bytes that differ only there decode alike. */
  lemma EncodeDecode(hi: byte, lo: byte)
    ensures EncodeHi(Port(hi), Reading(hi, lo) as nat) == (hi / 32) * 32 + hi % 4
    ensures EncodeLo(Reading(hi, lo) as nat) == lo
  {}

  /** `fillBlankSensorsWithDefaultValue`: every port whose updated bit is clear gets the
      sentinel, the others keep their reading. */
  function FillBlank(values: seq<u16>, updated: Bits): (r: seq<u16>)
    requires |values| == PORTS && |updated| == PORTS
    ensures |r| == PORTS
  {
    seq(PORTS, k requires 0 <= k < PORTS => if TestBit(updated, k) then values[k] else SENTINEL)
  }

  /** Whether a received port starts a new cycle: ports of one cycle arrive in
      increasing order, so a port not above the last one begins the next cycle. */
  predicate NewCycle(t: Table) {
    Port(t.pendingHi) <= t.last as nat
  }

  /** The low byte of a sensor update (the READY_FOR_SENSOR_LOW case). The reading is
      stored first; on a cycle boundary the unsent ports are then filled with the
      sentinel and the updated set is emptied; finally the port becomes the last one
      received and joins the updated set. */
  function Receive(t: Table, lo: byte): (r: Table)
    requires t.Valid()
    ensures r.Valid()
  {
    var port := Port(t.pendingHi);
    var stored := t.values[port := Reading(t.pendingHi, lo)];
    var values := if NewCycle(t) then FillBlank(stored, t.updated) else stored;
    var updated := if NewCycle(t) then Zero(PORTS) else t.updated;
    Table(values, SetBit(updated, port), port as byte, t.pendingHi)
  }

  /** What one sensor update does to each port. Within a cycle only the received port
      changes, to its reading. On a cycle boundary every port that was not updated in
      the cycle just ended reads the sentinel, and that includes the received port
      itself when it was not updated: its reading is overwritten. The updated set is
      then the received port alone, else it grows by that port. */
  lemma ReceiveSpec(t: Table, lo: byte)
    requires t.Valid()
    ensures var r, port := Receive(t, lo), Port(t.pendingHi);
      && r.last as nat == port
      && r.values[port] == (if NewCycle(t) && !TestBit(t.updated, port) then SENTINEL else Reading(t.pendingHi, lo))
      && (forall k :: 0 <= k < PORTS && k != port ==>
            r.values[k] == if NewCycle(t) && !TestBit(t.updated, k) then SENTINEL else t.values[k])
      && TestBit(r.updated, port)
      && (forall k :: 0 <= k < PORTS && k != port ==> (TestBit(r.updated, k) <==> !NewCycle(t) && TestBit(t.updated, k)))
  {
    var port := Port(t.pendingHi);
    if NewCycle(t) {
      ConstantBits(PORTS);
    }
  }

  /** A decoding example: high byte 0b00100011 and low byte 0b01100100 are port 1
      with reading 868. */
  lemma DecodeExample()
    ensures Port(0x23) == 1 && Reading(0x23, 0x64) == 868
  {}

  /** One complete sensor update: the high byte, then the low byte. */
  function Update(t: Table, hi: byte, lo: byte): (r: Table)
    requires t.Valid()
    ensures r.Valid()
  {
    Receive(t.(pendingHi := hi), lo)
  }

  /** A cycle in which ports 2 and 5 are sent (starting from no port updated and a last
      port below 2, so port 2 does not itself start a cycle), followed by port 0: once
      port 0 arrives, ports 2 and 5 keep the readings of the cycle and every other port
      reads the sentinel, port 0 included, so port 0's own reading is lost. */
  lemma CycleOfTwoThenPortZero(t: Table, hi2: byte, lo2: byte, hi5: byte, lo5: byte, hi0: byte, lo0: byte)
    requires t.Valid() && t.updated == Zero(PORTS) && t.last < 2
    requires Port(hi2) == 2 && Port(hi5) == 5 && Port(hi0) == 0
    ensures var r := Update(Update(Update(t, hi2, lo2), hi5, lo5), hi0, lo0);
      && r.values[2] == Reading(hi2, lo2)
      && r.values[5] == Reading(hi5, lo5)
      && (forall k :: 0 <= k < PORTS && k != 2 && k != 5 ==> r.values[k] == SENTINEL)
      && r.last == 0
      && (forall k :: 0 <= k < PORTS ==> (TestBit(r.updated, k) <==> k == 0))
  {
    ConstantBits(PORTS);
    var t1 := Update(t, hi2, lo2);
    ReceiveSpec(t.(pendingHi := hi2), lo2);
    var t2 := Update(t1, hi5, lo5);
    ReceiveSpec(t1.(pendingHi := hi5), lo5);
    ReceiveSpec(t2.(pendingHi := hi0), lo0);
  }
}
