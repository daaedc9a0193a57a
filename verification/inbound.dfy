/** The inbound path of the adapter: the dispatch loop reads event records
    from the device, decodes the received messages and delivers them to the
    consumer in read order. */
module Inbound {
  import opened CecTypes
  import opened Frame

  /** One read of an event record: the count the device's read returned and
      the record buffer as it stands after that read. */
  datatype ReadResult = ReadResult(ret: int, event: Event)

  /** Only a read that returned data and carries a received message reaches
      the consumer. */
  predicate Forwarded(r: ReadResult)
  {
    r.ret > 0 && r.event.eventType == ReceiveSuccess
  }

  /** The buffer always holds 17 payload bytes; a forwarded record reports a
      length within them. */
  predicate Readable(r: ReadResult)
  {
    |r.event.msg| == MaxMessageLen && (Forwarded(r) ==> Decodable(r.event))
  }

  predicate AllReadable(results: seq<ReadResult>)
  {
    forall i :: 0 <= i < |results| ==> Readable(results[i])
  }

  /** What one read contributes to the consumer. */
  function Deliver(r: ReadResult): seq<Command>
    requires Readable(r)
  {
    if Forwarded(r) then [Decode(r.event)] else []
  }

  /** The commands delivered for a sequence of reads, in read order. */
  function Delivered(results: seq<ReadResult>): seq<Command>
    requires AllReadable(results)
  {
    if results == [] then []
    else Delivered(results[..|results| - 1]) + Deliver(results[|results| - 1])
  }

  /** The positions of the forwarded reads, in increasing order. */
  function ForwardedIndices(results: seq<ReadResult>): seq<nat>
  {
    if results == [] then []
    else
      var n := |results| - 1;
      ForwardedIndices(results[..n]) + if Forwarded(results[n]) then [n] else []
  }

  /** Delivering one more read appends what that read contributes. */
  lemma DeliveredSnoc(results: seq<ReadResult>, i: nat)
    requires AllReadable(results) && i < |results|
    ensures AllReadable(results[..i]) && AllReadable(results[..i + 1])
    ensures Delivered(results[..i + 1]) == Delivered(results[..i]) + Deliver(results[i])
  {
    assert results[..i + 1][..i] == results[..i];
  }

  /** The commands that reach the consumer when the loop performs `results`
      and a stop raised during the last read cuts that read's delivery. */
  function DeliveredUntilStop(results: seq<ReadResult>, stopRaisedDuringLastRead: bool): seq<Command>
    requires AllReadable(results)
  {
    if stopRaisedDuringLastRead && |results| > 0 then
      assert AllReadable(results[..|results| - 1]);
      Delivered(results[..|results| - 1])
    else Delivered(results)
  }

  /** The dispatch loop. `results` are the reads the loop performs before it
      observes the stop request at its head; `stopRaisedDuringLastRead` says
      whether that request was already raised while the last read was
      blocking, in which case the check just before delivery sees it and the
      last command is not delivered. */
  method Process(results: seq<ReadResult>, stopRaisedDuringLastRead: bool) returns (delivered: seq<Command>)
    requires AllReadable(results)
    ensures delivered == DeliveredUntilStop(results, stopRaisedDuringLastRead)
  {
    delivered := [];
    var i := 0;
    while i < |results|
      invariant 0 <= i <= |results|
      invariant !(i == |results| > 0 && stopRaisedDuringLastRead) ==> delivered == Delivered(results[..i])
      invariant i == |results| > 0 && stopRaisedDuringLastRead ==> delivered == Delivered(results[..i - 1])
    {
      DeliveredSnoc(results, i);
      var r := results[i];
      if r.ret > 0 {
        var initiator := r.event.msg[0] / 16;
        var destination := r.event.msg[0] % 16;
        if r.event.eventType == ReceiveSuccess {
          var opcode := if r.event.msgLen > 1 then Some(r.event.msg[1]) else None;
          assert Decodable(r.event);
          var parameters := [];
          var j := 2;
          while j < r.event.msgLen
            invariant 2 <= j <= MaxMessageLen
            invariant r.event.msgLen > 2 ==> j <= r.event.msgLen
            invariant r.event.msgLen <= 2 ==> j == 2
            invariant parameters == r.event.msg[2..j]
          {
            parameters := parameters + [r.event.msg[j]];
            j := j + 1;
          }
          var cmd := Command(initiator, destination, opcode, parameters);
          assert cmd == Decode(r.event);
          var stopped := stopRaisedDuringLastRead && i == |results| - 1;
          if !stopped {
            delivered := delivered + [cmd];
          }
        }
      }
      i := i + 1;
    }
    assert results[..|results|] == results;
  }

  lemma AllReadableConcat(a: seq<ReadResult>, b: seq<ReadResult>)
    requires AllReadable(a) && AllReadable(b)
    ensures AllReadable(a + b)
  {
  }

  /** Delivery distributes over consecutive batches of reads: nothing is
      reordered across them. */
  lemma {:induction false} DeliveredAppend(a: seq<ReadResult>, b: seq<ReadResult>)
    requires AllReadable(a) && AllReadable(b)
    ensures AllReadable(a + b)
    ensures Delivered(a + b) == Delivered(a) + Delivered(b)
    decreases |b|
  {
    AllReadableConcat(a, b);
    if b == [] {
      assert a + b == a;
    } else {
      var n := |b| - 1;
      var ab := a + b;
      assert AllReadable(b[..n]);
      DeliveredAppend(a, b[..n]);
      assert ab[..|ab| - 1] == a + b[..n];
      assert ab[|ab| - 1] == b[n];
      calc {
        Delivered(ab);
        Delivered(ab[..|ab| - 1]) + Deliver(b[n]);
        Delivered(a) + Delivered(b[..n]) + Deliver(b[n]);
        Delivered(a) + Delivered(b);
      }
    }
  }

  /** The forwarded positions are exactly the reads that returned data and
      carry a received message, listed once each in increasing order. */
  lemma {:induction false} ForwardedIndicesExact(results: seq<ReadResult>)
    ensures forall k :: 0 <= k < |ForwardedIndices(results)| ==> ForwardedIndices(results)[k] < |results|
    ensures forall k, l :: 0 <= k < l < |ForwardedIndices(results)| ==>
              ForwardedIndices(results)[k] < ForwardedIndices(results)[l]
    ensures forall i :: 0 <= i < |results| ==> (Forwarded(results[i]) <==> i in ForwardedIndices(results))
  {
    if results != [] {
      var n := |results| - 1;
      ForwardedIndicesExact(results[..n]);
      forall i | 0 <= i < n
        ensures results[..n][i] == results[i]
      {
      }
    }
  }

  /** The consumer receives one command per forwarded read, in read order:
      the k-th delivered command is the decoding of the k-th forwarded
      read. */
  lemma {:induction false} DeliveredAreForwarded(results: seq<ReadResult>)
    requires AllReadable(results)
    ensures |Delivered(results)| == |ForwardedIndices(results)|
    ensures forall k :: 0 <= k < |Delivered(results)| ==>
              && ForwardedIndices(results)[k] < |results|
              && Forwarded(results[ForwardedIndices(results)[k]])
              && Delivered(results)[k] == Decode(results[ForwardedIndices(results)[k]].event)
  {
    if results != [] {
      var n := |results| - 1;
      assert AllReadable(results[..n]);
      DeliveredAreForwarded(results[..n]);
      ForwardedIndicesExact(results[..n]);
      ForwardedIndicesExact(results);
    }
  }

  /** Reads that returned no data and events other than a received message
      (no-ack, disconnected, connected, send success) never reach the
      consumer. */
  lemma {:induction false} DroppedReadsDeliverNothing(results: seq<ReadResult>)
    requires AllReadable(results)
    requires forall i :: 0 <= i < |results| ==>
               results[i].ret <= 0 || results[i].event.eventType in {NoAck, Disconnected, Connected, SendSuccess}
    ensures Delivered(results) == []
  {
    if results != [] {
      DroppedReadsDeliverNothing(results[..|results| - 1]);
    }
  }
}
