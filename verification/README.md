# Sunxi CEC adapter — a Dafny model

This project models the libCEC adapter for Allwinner (sunxi) boards. The
adapter bridges CEC (Consumer Electronics Control, the control bus carried
over HDMI) and the kernel's `sunxi_hdmi_cec` character device. The model
covers four parts of the adapter and proves what each one promises:

- **Frame encoding** (`Frame`, `Outbound`). `Write` first checks a structured
  command against the 17-byte frame limit. It then packs the initiator and
  destination into byte 0. It appends the opcode and the parameters only when
  an opcode is set. Finally it maps the device's write count to SENT_ACKED or
  ERROR.
  - `Encode` is the frame as a pure function.
  - `Outbound.Write` is the imperative fill of a local 17-byte array, proved
    to hand exactly `Encode(cmd)` to the device.
- **Event decoding and dispatch** (`Frame.Decode`, `Inbound`). The dispatch
  loop splits byte 0 into two nibbles. It takes `msg[1]` as the opcode when the
  reported length is above 1. It pushes `msg[2..msg_len)` as parameters. Only
  reads that returned data and carry a RECEIVE_SUCCESS event are forwarded.
  - `Process` runs this loop over a finite sequence of abstract read results
    and returns the delivered commands.
  - The lemmas show that exactly the forwarded reads are delivered, one
    command each, in read order.
- **Logical-address state** (`Session.SunxiAdapter`). This is one held
  address with two paths:
  - a fast path when the requested address is already held;
  - a failure path that leaves the held address unchanged.

  A ghost log of control requests makes "no request was issued" provable. The
  class invariant states that a known held address is the one the device last
  accepted.
- **Session lifecycle and queries**. `Open`, `Close`, `GetPhysicalAddress`,
  `GetFirmwareVersion` and `GetVendorId` are decision rules over device
  outcomes. Those outcomes are method parameters.

Device I/O does not appear as calls. Each outcome is a parameter:

- whether the device opens;
- whether the dispatch thread starts;
- whether each control request is accepted;
- the count the device's write returns;
- the 32-bit value the physical-address request fills in;
- each read's return value together with the event record it leaves in the
  buffer.

Logical addresses are integers in -1..15, where -1 is libcec's "unknown"
address. `destination & 0x0f` is written as `destination % 16`. Dafny's
remainder is Euclidean, so this agrees with the two's complement mask: an
unknown destination (-1) goes out as 15.

Notes on the code:

- The size check of `Write` only logs "data size too large". It records no
  last-error string, and nothing in the file assigns one.
- `GetPhysicalAddress` fills a 32-bit variable and returns it as a 16-bit
  value, so the model narrows it with `% 0x10000`.
- The size check counts the parameters even when no opcode is set, although
  such a polling frame sends only its address byte.

## Model

| member | source | states |
|---|---|---|
| Frame.AddressByte | src/libcec/adapter/Sunxi/SunxiCECAdapterCommunication.cpp:158 | Byte 0 carries the initiator in its high nibble and the destination's low four bits in its low nibble. |
| Frame.Encode | src/libcec/adapter/Sunxi/SunxiCECAdapterCommunication.cpp:158-165 | Frame layout. Byte 0 splits back into initiator and masked destination. Without an opcode the frame is 1 byte. With one, byte 1 is the opcode, the rest is the parameters in order, and the length is 2 + the parameter count. |
| Frame.Decode | src/libcec/adapter/Sunxi/SunxiCECAdapterCommunication.cpp:249-263 | Initiator and destination are bus addresses that rebuild `msg[0]`. The opcode is present exactly when `msg_len > 1` and equals `msg[1]`. The parameters are exactly `msg[2..msg_len)`, and empty when `msg_len <= 2`. |
| Frame.EncodeFits | src/libcec/adapter/Sunxi/SunxiCECAdapterCommunication.cpp:152-165 | A command that passes the size check encodes to at most 17 bytes. With an opcode, the charged size is exactly the frame length. |
| Frame.DecodeEncode | src/libcec/adapter/Sunxi/SunxiCECAdapterCommunication.cpp:158-165 | Round trip. A command with an opcode and bus addresses that passes the size check decodes back unchanged from its frame, whatever follows the frame in the 17-byte buffer. |
| Frame.DecodeEncodePoll | src/libcec/adapter/Sunxi/SunxiCECAdapterCommunication.cpp:159-165 | A command without an opcode comes back with no parameters. Its round trip holds exactly when its parameters are empty. |
| Frame.EncodeDecode | src/libcec/adapter/Sunxi/SunxiCECAdapterCommunication.cpp:249-263 | Inverse direction. Re-encoding a decoded event whose reported length is at least 1 gives exactly the reported bytes `msg[..msg_len)`. |
| Frame.UnknownDestinationIsBroadcast | src/libcec/adapter/Sunxi/SunxiCECAdapterCommunication.cpp:158 | The `& 0x0f` mask sends the unknown destination (-1) as address 15. |
| Frame.EncodeStandbyExample | src/libcec/adapter/Sunxi/SunxiCECAdapterCommunication.cpp:158-165 | Standby (0x36) from address 1 to address 4 encodes to `[0x14, 0x36]`. |
| Frame.DecodeExample | src/libcec/adapter/Sunxi/SunxiCECAdapterCommunication.cpp:249-263 | The event `[0x14, 0x04, 0xAA, 0xBB]` with length 4 decodes to 1 → 4, opcode 0x04, parameters `[0xAA, 0xBB]`. |
| Outbound.Write | src/libcec/adapter/Sunxi/SunxiCECAdapterCommunication.cpp:144-175 | A command over the limit gives ERROR and reaches no device write. Otherwise exactly `Encode(cmd)` is handed to the device. The result is SENT_ACKED exactly when the write count equals the frame length, and ERROR in every other case. |
| Inbound.Process | src/libcec/adapter/Sunxi/SunxiCECAdapterCommunication.cpp:237-276 | The loop delivers `DeliveredUntilStop(reads, stop)`: the commands of the forwarded reads in read order, without the last read's command when the stop request was raised during that read. |
| Inbound.DeliveredAppend | src/libcec/adapter/Sunxi/SunxiCECAdapterCommunication.cpp:243-273 | Delivery over two consecutive batches of reads is the concatenation of the two deliveries: no reordering. |
| Inbound.ForwardedIndicesExact | src/libcec/adapter/Sunxi/SunxiCECAdapterCommunication.cpp:246-253 | The forwarded positions are strictly increasing, lie within the reads, and contain a position exactly when that read has `ret > 0` and event type RECEIVE_SUCCESS. |
| Inbound.DeliveredAreForwarded | src/libcec/adapter/Sunxi/SunxiCECAdapterCommunication.cpp:243-273 | There is one delivered command per forwarded read, in read order. The k-th delivered command is the decoding of the k-th forwarded read. |
| Inbound.DroppedReadsDeliverNothing | src/libcec/adapter/Sunxi/SunxiCECAdapterCommunication.cpp:51-55 | Reads with `ret <= 0` and NOACK, DISCONNECTED, CONNECTED or SEND_SUCCESS events deliver nothing. |
| Session.AcceptedAddressWasRequested | src/libcec/adapter/Sunxi/SunxiCECAdapterCommunication.cpp:218-234 | A known held address was set by a set-logical-address request that the device accepted. |
| Session.SunxiAdapter.constructor | src/libcec/adapter/Sunxi/SunxiCECAdapterCommunication.cpp:83-94 | A new adapter holds the unknown address. Its device is closed, no thread runs, and no request has been issued. |
| Session.SunxiAdapter.IsOpen | src/libcec/adapter/Sunxi/SunxiCECAdapterCommunication.cpp:105-108 | True exactly while the device is open: after a successful `Open`, and not after a failed `Open` or any `Close`. |
| Session.SunxiAdapter.Open | src/libcec/adapter/Sunxi/SunxiCECAdapterCommunication.cpp:110-124 | Returns true exactly when the device opens and either listening is not requested or the thread starts. A refused start request does not change the result. When the thread fails, the device ends closed. The start request is issued only on success. |
| Session.SunxiAdapter.Close | src/libcec/adapter/Sunxi/SunxiCECAdapterCommunication.cpp:127-134 | Afterwards no thread runs and the device is closed. A stop request is issued even when the adapter is already closed. The held address is kept. |
| Session.SunxiAdapter.GetLogicalAddresses | src/libcec/adapter/Sunxi/SunxiCECAdapterCommunication.cpp:205-215 | The result is at most one address and never the unknown one. It is empty exactly when the held address is unknown, and otherwise contains it. |
| Session.SunxiAdapter.SetLogicalAddresses | src/libcec/adapter/Sunxi/SunxiCECAdapterCommunication.cpp:218-234 | An address already held gives true with no request. Otherwise one request is issued: if refused, the result is false and the held address is kept; if accepted, the held address becomes the primary. Afterwards the address set is `{primary}`, or empty when the primary is unknown. |
| Session.SunxiAdapter.GetPhysicalAddress | src/libcec/adapter/Sunxi/SunxiCECAdapterCommunication.cpp:191-202 | A refused request gives the invalid sentinel 0xFFFF. An accepted one gives the retrieved value narrowed to 16 bits. |
| Session.SunxiAdapter.GetFirmwareVersion | src/libcec/adapter/Sunxi/SunxiCECAdapterCommunication.cpp:178-182 | Always 0: this transport has no firmware query. |
| Session.SunxiAdapter.GetVendorId | src/libcec/adapter/Sunxi/SunxiCECAdapterCommunication.cpp:185-188 | Always the unknown vendor. |
| Session.SetTwiceIssuesOneRequest | src/libcec/adapter/Sunxi/SunxiCECAdapterCommunication.cpp:218-234 | Claiming a new address twice: when the first claim succeeds, the second also succeeds, and exactly one accepted set-logical-address request reaches the device. |

## Left out

- The dispatch thread machinery (`CreateThread`, `StopThread`, `IsStopped`) and the mutex are concurrency and are not modelled. Thread creation is an outcome parameter of `Open`, and `listening` records whether a thread runs. The stop request appears only through the reads the loop performs and a flag for a stop raised during the last read. Because stopping is permanent, only the last read's delivery can be cut.
- The character device's open, read, write and ioctl calls, and the 5000 ms read timeout, are I/O. Their outcomes are parameters.
- A read that returns fewer bytes than the event record leaves the rest of the buffer from earlier reads. The model takes the buffer as it stands after each read as part of that read's result.
- The ioctl request codes (`_IOW`/`_IO`/`_IOR`) are kernel ABI details. The model names the four requests instead. The NXP status codes have no behaviour in this file.
- Logging and the consumer's `OnCommandReceived` are foreign calls. The model records only which commands are delivered.
- `cec_command::Format` and `cec_datapacket::PushBack` are defined in libcec headers that are not part of this model. The opcode is present exactly when `msg_len > 1`. The "no opcode" value of libcec's opcode enumeration is not treated specially. The parameter packet's capacity is not modelled: inbound there are at most 15 parameters, and outbound the size check bounds them.
- An inbound `msg_len` above 17, and an initiator equal to the unknown address (-1) reaching the shift into byte 0, are undefined behaviour in C. `Decode` and `Process` exclude the first by their preconditions. `Encode` excludes the second. `Write` excludes it only for commands that pass the size check, because an oversized command is rejected before the shift.
- The destructor's memory management and `GetError` are not modelled: nothing in this file assigns the error string.
- `IsOpen` models only the device's open state. `IsInitialised` is defined in a header that is not part of this model; the model treats the session as always initialised once constructed.
- `Write`'s retry, line-timeout and reply arguments are unused by the adapter and are left out.
- Session.SunxiAdapter.Open: when the device refuses to open, the model treats it as closed afterwards. How the device behaves when opened twice is not part of this model.
