/** The adapter session: device lifecycle, the held logical address and the
    capability queries. Every device outcome (open, thread creation, control
    requests) is a parameter; a ghost log records the control requests the
    adapter issues and whether the device accepted them. */
module Session {
  import opened CecTypes

  /** The control requests the adapter sends to the device. */
  datatype Request =
    | IocSetLogicalAddress(address: LogicalAddress)
    | IocStartDevice
    | IocStopDevice
    | IocGetPhysicalAddress

  /** A control request as issued, with whether the device accepted it. */
  datatype Issued = Issued(request: Request, accepted: bool)

  /** libcec's sentinel for "no physical address". */
  const InvalidPhysicalAddress: nat := 0xFFFF

  /** The vendor identification reported by an adapter. */
  datatype VendorId = VendorUnknown | Vendor(id: nat)

  /** The address set by the most recent SET request the device accepted,
      or Unknown when it has accepted none. */
  ghost function LastAcceptedAddress(log: seq<Issued>): LogicalAddress
  {
    if log == [] then Unknown
    else
      var last := log[|log| - 1];
      if last.accepted && last.request.IocSetLogicalAddress? then last.request.address
      else LastAcceptedAddress(log[..|log| - 1])
  }

  /** One more request changes the last accepted address only when it is an
      accepted SET request. */
  lemma LastAcceptedAfter(log: seq<Issued>, e: Issued)
    ensures LastAcceptedAddress(log + [e]) ==
      if e.accepted && e.request.IocSetLogicalAddress? then e.request.address else LastAcceptedAddress(log)
  {
  }

  /** A known held address was set by a SET request the device accepted. */
  lemma {:induction false} AcceptedAddressWasRequested(log: seq<Issued>)
    requires LastAcceptedAddress(log) != Unknown
    ensures exists i :: 0 <= i < |log| && log[i] == Issued(IocSetLogicalAddress(LastAcceptedAddress(log)), true)
  {
    var n := |log| - 1;
    var last := log[n];
    if !(last.accepted && last.request.IocSetLogicalAddress?) {
      AcceptedAddressWasRequested(log[..n]);
      var i :| 0 <= i < n && log[..n][i] == Issued(IocSetLogicalAddress(LastAcceptedAddress(log[..n])), true);
      assert log[i] == log[..n][i];
    }
  }

  class SunxiAdapter {
    var logicalAddress: LogicalAddress
    var deviceOpen: bool
    var listening: bool
    /** Control requests issued so far, oldest first. */
    ghost var requests: seq<Issued>

    /** The held address is the one the device last accepted. */
    ghost predicate Valid()
      reads this
    {
      logicalAddress == LastAcceptedAddress(requests)
    }

    constructor ()
      ensures Valid()
      ensures logicalAddress == Unknown && !deviceOpen && !listening && requests == []
    {
      logicalAddress := Unknown;
      deviceOpen := false;
      listening := false;
      requests := [];
    }

    /** True while the device is open; the session object itself always
        exists once constructed. */
    predicate IsOpen(): (open: bool)
      reads this
      ensures open <==> deviceOpen
    {
      deviceOpen
    }

    /** Opens the device; with `startListening`, starts the dispatch thread;
        then asks the device to start, whose refusal is only logged. */
    method Open(startListening: bool, deviceOpens: bool, threadStarts: bool, startAccepted: bool)
      returns (ok: bool)
      requires Valid()
      modifies this
      ensures Valid()
      ensures ok == (deviceOpens && (!startListening || threadStarts))
      ensures IsOpen() == ok
      ensures listening == (old(listening) || (deviceOpens && startListening && threadStarts))
      ensures requests == old(requests) + if ok then [Issued(IocStartDevice, startAccepted)] else []
      ensures logicalAddress == old(logicalAddress)
    {
      LastAcceptedAfter(requests, Issued(IocStartDevice, startAccepted));
      if deviceOpens {
        deviceOpen := true;
        var started := false;
        if startListening {
          started := threadStarts;
          listening := listening || threadStarts;
        }
        if !startListening || started {
          requests := requests + [Issued(IocStartDevice, startAccepted)];
          return true;
        }
        deviceOpen := false;
      } else {
        deviceOpen := false;
      }
      return false;
    }

    /** Stops the dispatch thread, asks the device to stop (a refusal is only
        logged) and closes the device; it does so even when already closed. */
    method Close(stopAccepted: bool)
      requires Valid()
      modifies this
      ensures Valid()
      ensures !IsOpen() && !listening
      ensures requests == old(requests) + [Issued(IocStopDevice, stopAccepted)]
      ensures logicalAddress == old(logicalAddress)
    {
      LastAcceptedAfter(requests, Issued(IocStopDevice, stopAccepted));
      listening := false;
      requests := requests + [Issued(IocStopDevice, stopAccepted)];
      deviceOpen := false;
    }

    /** The held address as an address set: empty while it is unknown. */
    function GetLogicalAddresses(): (addresses: set<LogicalAddress>)
      reads this
      ensures Unknown !in addresses && |addresses| <= 1
      ensures addresses == {} <==> logicalAddress == Unknown
      ensures logicalAddress != Unknown ==> logicalAddress in addresses
    {
      if logicalAddress != Unknown then {logicalAddress} else {}
    }

    /** Claims `primary` as the adapter's logical address. An address already
        held succeeds without a request; otherwise the device's answer
        decides, and a refusal leaves the held address as it was. */
    method SetLogicalAddresses(primary: LogicalAddress, accepted: bool) returns (ok: bool)
      requires Valid()
      modifies this`logicalAddress, this`requests
      ensures Valid()
      ensures ok == (old(logicalAddress) == primary || accepted)
      ensures logicalAddress == if ok then primary else old(logicalAddress)
      ensures requests == old(requests) +
        if old(logicalAddress) == primary then [] else [Issued(IocSetLogicalAddress(primary), accepted)]
      ensures GetLogicalAddresses() == if ok && primary != Unknown then {primary}
                                       else if ok then {}
                                       else old(GetLogicalAddresses())
    {
      if logicalAddress == primary {
        return true;
      }
      LastAcceptedAfter(requests, Issued(IocSetLogicalAddress(primary), accepted));
      requests := requests + [Issued(IocSetLogicalAddress(primary), accepted)];
      if !accepted {
        return false;
      }
      logicalAddress := primary;
      return true;
    }

    /** The physical address the device reports through a 32-bit buffer,
        narrowed to 16 bits, or the invalid sentinel when the request
        fails. */
    method GetPhysicalAddress(accepted: bool, info: nat) returns (address: nat)
      requires Valid()
      requires info < 0x1_0000_0000
      modifies this`requests
      ensures Valid()
      ensures address < 0x1_0000
      ensures !accepted ==> address == InvalidPhysicalAddress
      ensures accepted ==> address == info % 0x1_0000
      ensures requests == old(requests) + [Issued(IocGetPhysicalAddress, accepted)]
    {
      LastAcceptedAfter(requests, Issued(IocGetPhysicalAddress, accepted));
      requests := requests + [Issued(IocGetPhysicalAddress, accepted)];
      if !accepted {
        return InvalidPhysicalAddress;
      }
      return info % 0x1_0000;
    }

    /** This transport has no firmware query. */
    function GetFirmwareVersion(): (version: nat)
      ensures version == 0
    {
      0
    }

    /** This transport has no vendor identification channel. */
    function GetVendorId(): (vendor: VendorId)
      ensures vendor == VendorUnknown
    {
      VendorUnknown
    }
  }

  /** Claiming the same new address twice: when the first claim succeeds the
      second is a success without a request, so exactly one SET request
      reaches the device. */
  method SetTwiceIssuesOneRequest(adapter: SunxiAdapter, primary: LogicalAddress, firstAccepted: bool, secondAccepted: bool)
    returns (first: bool, second: bool)
    requires adapter.Valid() && adapter.logicalAddress != primary
    modifies adapter
    ensures adapter.Valid()
    ensures first == firstAccepted
    ensures first ==>
              && second
              && adapter.logicalAddress == primary
              && adapter.requests == old(adapter.requests) + [Issued(IocSetLogicalAddress(primary), true)]
  {
    first := adapter.SetLogicalAddresses(primary, firstAccepted);
    second := adapter.SetLogicalAddresses(primary, secondAccepted);
  }
}
