/** The two library channels, with only the guarantees the program relies on: a bounded FIFO that
    answers "disconnected" only when the sender is gone and the queue is empty, and a oneshot that
    carries at most one value. */
module Channels {
  import opened Bytes

  datatype SendResult = Sent | Full | Closed

  datatype RecvResult<+T> = Got(item: T) | Empty | Disconnected

  datatype Chan<T> = Chan(queue: seq<T>, cap: nat, senderOpen: bool, receiverOpen: bool) {
    function Offer(x: T): (Chan<T>, SendResult) {
      if !receiverOpen then (this, Closed)
      else if |queue| >= cap then (this, Full)
      else (this.(queue := queue + [x]), Sent)
    }

    function Take(): (Chan<T>, RecvResult<T>) {
      if queue != [] then (this.(queue := queue[1..]), Got(queue[0]))
      else if senderOpen then (this, Empty)
      else (this, Disconnected)
    }

    function DropSender(): Chan<T> {
      this.(senderOpen := false)
    }

    /** Dropping the receiver discards whatever was still queued. */
    function DropReceiver(): Chan<T> {
      this.(queue := [], receiverOpen := false)
    }
  }

  function NewChan<T>(cap: nat): Chan<T> {
    Chan([], cap, true, true)
  }

  /** Who may answer a call: the host by completing it, the deadline reaper, or the final free. */
  datatype Party = Host | Reaper | Shutdown

  const GRPC_DEADLINE_EXCEEDED := 4
  const GRPC_RESOURCE_EXHAUSTED := 8
  const GRPC_UNAVAILABLE := 14

  /** A final status: a `google.rpc.Code` and the bytes of its message. */
  datatype Status = Status(code: int, text: seq<byte>)

  /** `spent` records that a poll has already returned the outcome; polling again would panic. */
  datatype Reply = Reply(slot: Option<Status>, senderOpen: bool, receiverOpen: bool, spent: bool) {
    function Send(st: Status): Reply
      requires senderOpen
    {
      this.(senderOpen := false, slot := if receiverOpen then Some(st) else None)
    }
  }

  const FRESH_REPLY := Reply(None, true, true, false)

  datatype ReplyPoll = StillPending | Ready(status: Option<Status>)

  function PollReply(r: Reply): ReplyPoll {
    if r.slot.Some? then Ready(r.slot)
    else if r.senderOpen then StillPending
    else Ready(None)
  }

  /** The three channels made for one RPC, shared by the connection task, the pump and the live map. */
  class CallLink {
    var inbound: Chan<Message>
    var outbound: Chan<Message>
    var status: Reply

    constructor (inboundCap: nat, outboundCap: nat)
      ensures inbound == NewChan(inboundCap) && outbound == NewChan(outboundCap) && status == FRESH_REPLY
    {
      inbound, outbound, status := NewChan(inboundCap), NewChan(outboundCap), FRESH_REPLY;
    }

    method TrySendInbound(m: Message) returns (r: SendResult)
      modifies this`inbound
      ensures (inbound, r) == old(inbound).Offer(m)
    {
      var o := inbound.Offer(m);
      inbound, r := o.0, o.1;
    }

    method TryRecvInbound() returns (r: RecvResult<Message>)
      modifies this`inbound
      ensures (inbound, r) == old(inbound).Take()
    {
      var o := inbound.Take();
      inbound, r := o.0, o.1;
    }

    method TrySendOutbound(m: Message) returns (r: SendResult)
      modifies this`outbound
      ensures (outbound, r) == old(outbound).Offer(m)
    {
      var o := outbound.Offer(m);
      outbound, r := o.0, o.1;
    }

    method TryRecvOutbound() returns (r: RecvResult<Message>)
      modifies this`outbound
      ensures (outbound, r) == old(outbound).Take()
    {
      var o := outbound.Take();
      outbound, r := o.0, o.1;
    }

    /** The status sender is consumed by sending, so it must not have been used before. */
    method SendStatus(st: Status)
      requires status.senderOpen
      modifies this`status
      ensures status == old(status).Send(st)
    {
      status := status.Send(st);
    }

    /** Must not be polled again once it has been ready. */
    method PollStatus() returns (r: ReplyPoll)
      requires !status.spent
      modifies this`status
      ensures r == PollReply(old(status))
      ensures status == old(status).(spent := r.Ready?)
    {
      r := PollReply(status);
      status := status.(spent := r.Ready?);
    }
  }
}
