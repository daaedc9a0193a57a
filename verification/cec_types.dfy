/** Types shared by the Sunxi CEC adapter model: bytes, logical addresses,
    the structured CEC command and the fixed frame capacity. */
module CecTypes {

  /** One unsigned byte on the wire. */
  type Byte = x: int | 0 <= x < 256

  /** A logical address as the adapter holds it: 0..15 on the bus, or -1 for
      "unknown" (libcec's CECDEVICE_UNKNOWN). */
  type LogicalAddress = x: int | -1 <= x <= 15

  const Unknown: LogicalAddress := -1

  /** Capacity of a raw CEC frame and of the inbound event's payload buffer. */
  const MaxMessageLen: nat := 17

  datatype Option<+T> = None | Some(value: T)

  /** A structured CEC command: the opcode is present exactly when libcec's
      `opcode_set` flag is set. */
  datatype Command = Command(
    initiator: LogicalAddress,
    destination: LogicalAddress,
    opcode: Option<Byte>,
    parameters: seq<Byte>)

  /** True when the address is an actual bus address (0..15). */
  predicate OnBus(a: LogicalAddress)
  {
    a != Unknown
  }
}
