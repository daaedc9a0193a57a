/** The outbound path of the adapter: Write packs a structured command into a
    local 17-byte buffer and hands it to the device in one write. */
module Outbound {
  import opened CecTypes
  import opened Frame

  /** The two outcomes this adapter reports for a write. */
  datatype MessageState = SentAcked | Error

  /** Write as the adapter performs it. `written` is the count the device's
      write call returns when it is called. `handed` is the frame passed to
      the device, or None when the size check stopped the write before any
      I/O. The initiator must be a bus address only once the size check has
      passed, since only then is it shifted into byte 0. */
  method Write(cmd: Command, written: int) returns (rc: MessageState, handed: Option<seq<Byte>>)
    requires OnBus(cmd.initiator) || TooLarge(cmd)
    ensures TooLarge(cmd) ==> handed == None && rc == Error
    ensures !TooLarge(cmd) ==> handed == Some(Encode(cmd))
    ensures rc == SentAcked <==> !TooLarge(cmd) && written == |Encode(cmd)|
  {
    if ChargedSize(cmd) > MaxMessageLen {
      return Error, None;
    }
    var message := new Byte[MaxMessageLen];
    var msgLen := 1;
    message[0] := AddressByte(cmd.initiator, cmd.destination);
    if cmd.opcode.Some? {
      message[1] := cmd.opcode.value;
      msgLen := msgLen + 1;
      // the parameters are copied behind the opcode, byte by byte
      var k := 0;
      while k < |cmd.parameters|
        invariant 0 <= k <= |cmd.parameters|
        invariant message[0] == AddressByte(cmd.initiator, cmd.destination)
        invariant message[1] == cmd.opcode.value
        invariant forall j :: 0 <= j < k ==> message[2 + j] == cmd.parameters[j]
      {
        message[2 + k] := cmd.parameters[k];
        k := k + 1;
      }
      msgLen := msgLen + |cmd.parameters|;
    }
    assert message[..msgLen] == Encode(cmd);
    handed := Some(message[..msgLen]);
    rc := if written == msgLen then SentAcked else Error;
  }
}
