/** The raw CEC frame: how a structured command is packed into at most 17
    bytes for the device, and how an inbound event record is unpacked into a
    structured command. */
module Frame {
  import opened CecTypes

  /** Event classifications reported by the device in an event record. */
  const ReceiveSuccess: int := 1
  const NoAck: int := 2
  const Disconnected: int := 3
  const Connected: int := 4
  const SendSuccess: int := 5

  /** The device's fixed-size event record: a type, a reported length and a
      17-byte payload buffer. */
  datatype Event = Event(eventType: int, msgLen: int, msg: seq<Byte>)

  /** An event record that can be decoded without reading past its buffer. */
  predicate Decodable(ev: Event)
  {
    |ev.msg| == MaxMessageLen && ev.msgLen <= MaxMessageLen
  }

  /** The number of bytes the size check of Write charges for a command:
      one address byte, one opcode byte when an opcode is set, and every
      parameter (counted even when no opcode is set). */
  function ChargedSize(cmd: Command): nat
  {
    |cmd.parameters| + (if cmd.opcode.Some? then 1 else 0) + 1
  }

  /** Write refuses a command whose charged size exceeds the frame capacity. */
  predicate TooLarge(cmd: Command)
  {
    ChargedSize(cmd) > MaxMessageLen
  }

  /** Byte 0 of a frame: initiator in the high nibble, destination masked to
      its low four bits in the low nibble. `% 16` is `& 0x0f` on a two's
      complement value, so the unknown address -1 is sent as 15. */
  function AddressByte(initiator: LogicalAddress, destination: LogicalAddress): (b: Byte)
    requires OnBus(initiator)
    ensures b / 16 == initiator && b % 16 == destination % 16
  {
    initiator * 16 + destination % 16
  }

  /** The frame Write hands to the device. */
  function Encode(cmd: Command): (frame: seq<Byte>)
    requires OnBus(cmd.initiator)
    ensures |frame| >= 1
    ensures frame[0] / 16 == cmd.initiator && frame[0] % 16 == cmd.destination % 16
    ensures cmd.opcode.None? ==> |frame| == 1
    ensures cmd.opcode.Some? ==>
              && |frame| == 2 + |cmd.parameters|
              && frame[1] == cmd.opcode.value
              && frame[2..] == cmd.parameters
  {
    [AddressByte(cmd.initiator, cmd.destination)] +
    match cmd.opcode
    case None => []
    case Some(op) => [op] + cmd.parameters
  }

  /** The command Process builds from a received event record. */
  function Decode(ev: Event): (cmd: Command)
    requires Decodable(ev)
    ensures OnBus(cmd.initiator) && OnBus(cmd.destination)
    ensures cmd.initiator * 16 + cmd.destination == ev.msg[0]
    ensures cmd.opcode.Some? <==> ev.msgLen > 1
    ensures cmd.opcode.Some? ==> cmd.opcode.value == ev.msg[1]
    ensures ev.msgLen <= 2 ==> cmd.parameters == []
    ensures ev.msgLen > 2 ==>
              && |cmd.parameters| == ev.msgLen - 2
              && forall k :: 0 <= k < |cmd.parameters| ==> cmd.parameters[k] == ev.msg[k + 2]
  {
    Command(
      ev.msg[0] / 16,
      ev.msg[0] % 16,
      if ev.msgLen > 1 then Some(ev.msg[1]) else None,
      if ev.msgLen > 2 then ev.msg[2..ev.msgLen] else [])
  }

  /** A command that passes the size check encodes to a frame that fits the
      17-byte buffer. */
  lemma EncodeFits(cmd: Command)
    requires OnBus(cmd.initiator) && !TooLarge(cmd)
    ensures |Encode(cmd)| <= MaxMessageLen
    ensures cmd.opcode.Some? ==> |Encode(cmd)| == ChargedSize(cmd)
  {
  }

  /** A received event record whose payload starts with the given frame and
      whose reported length is the frame's length. */
  predicate Carries(ev: Event, frame: seq<Byte>)
  {
    |ev.msg| == MaxMessageLen && ev.msgLen == |frame| <= |ev.msg| &&
    ev.msg[..ev.msgLen] == frame
  }

  /** Round trip: a command with an opcode and bus addresses that passes the
      size check comes back unchanged from its encoded frame, whatever the
      rest of the event buffer holds. */
  lemma DecodeEncode(cmd: Command, ev: Event)
    requires OnBus(cmd.initiator) && OnBus(cmd.destination)
    requires cmd.opcode.Some? && !TooLarge(cmd)
    requires Carries(ev, Encode(cmd))
    ensures Decodable(ev) && Decode(ev) == cmd
  {
  }

  /** A polling command (no opcode) goes out as its address byte alone: its
      parameters are lost, so the round trip holds exactly when there are
      none. */
  lemma DecodeEncodePoll(cmd: Command, ev: Event)
    requires OnBus(cmd.initiator) && OnBus(cmd.destination)
    requires cmd.opcode.None?
    requires Carries(ev, Encode(cmd))
    ensures Decodable(ev) && Decode(ev) == cmd.(parameters := [])
    ensures Decode(ev) == cmd <==> cmd.parameters == []
  {
  }

  /** The other direction: re-encoding a decoded event with at least its
      address byte reproduces exactly the bytes the event reported. */
  lemma EncodeDecode(ev: Event)
    requires Decodable(ev) && 1 <= ev.msgLen
    ensures Encode(Decode(ev)) == ev.msg[..ev.msgLen]
  {
  }

  /** An unknown destination goes on the wire as the broadcast address 15. */
  lemma UnknownDestinationIsBroadcast(cmd: Command, ev: Event)
    requires OnBus(cmd.initiator) && cmd.destination == Unknown
    requires Carries(ev, Encode(cmd))
    ensures Decodable(ev) && Decode(ev).destination == 15
  {
  }

  /** Standby from address 1 to address 4 is the two bytes 0x14 0x36. */
  lemma EncodeStandbyExample()
    ensures Encode(Command(1, 4, Some(0x36), [])) == [0x14, 0x36]
  {
  }

  /** A four-byte received event decodes to initiator 1, destination 4,
      opcode 0x04 and the parameters 0xAA 0xBB. */
  lemma DecodeExample(ev: Event)
    requires Decodable(ev) && ev.eventType == ReceiveSuccess && ev.msgLen == 4
    requires ev.msg[..4] == [0x14, 0x04, 0xAA, 0xBB]
    ensures Decode(ev) == Command(1, 4, Some(0x04), [0xAA, 0xBB])
  {
  }
}
