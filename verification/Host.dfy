/** The Pascal host's side: the grow-and-retry loops over the native calls, and once-only completion. Between two
    native calls every other party may act; what they cannot do is read this call's messages or accept. */
module Host {
  import opened Bytes
  import opened Ffi
  import opened Channels
  import opened CallQueues
  import opened Text
  import CallTable
  import Inbound

  const FIRST_READ_BUFFER := 65536
  const FIRST_ACCEPT_BUFFER := 512

  datatype HostRead = Message(data: Bytes.Message) | NothingYet | ClientDone | Error

  /** The message next in line for a call's single reader. */
  function NextInLine(slot: Inbound.Slot, chan: Chan<Bytes.Message>): Option<Bytes.Message> {
    if slot.held.Some? then slot.held
    else if slot.done || chan.queue == [] then None
    else Some(chan.queue[0])
  }

  predicate NextIsLonger(slot: Inbound.Slot, chan: Chan<Bytes.Message>, size: nat) {
    match NextInLine(slot, chan)
    case None => false
    case Some(m) => |m| > size
  }

  /** Anything the pump, the connection, other calls and the reaper may do between two reads of the call's only
      reader: the call may vanish, but while it is live its slot stays as it is. `Inbound.HeldIsStable` shows that
      they keep to this. */
  method OthersActBetweenReads(q: CallQueue, id: nat)
    modifies q`live, (if id in q.live then {q.live[id].link} else {})`inbound
    ensures id in q.live ==>
              && id in old(q.live)
              && q.live[id].slot == old(q.live[id]).slot && q.live[id].link == old(q.live[id]).link
  {
    if id in q.live {
      if * {
        q.live := q.live - {id};
      } else {
        var m: Bytes.Message := *;
        var _ := q.live[id].link.TrySendInbound(m);
      }
    }
  }

  /** At most two native calls; on success the whole message that was next in line when the read began. */
  method ReadMessage(q: CallQueue, id: nat) returns (r: HostRead, calls: nat)
    modifies q`live, (if id in q.live then {q.live[id].link} else {})`inbound
    ensures calls == if id in old(q.live) && NextIsLonger(old(q.live[id].slot), old(q.live[id].link.inbound), 65536)
                     then 2 else 1
    ensures r.Message? ==>
              id in old(q.live) && NextInLine(old(q.live[id].slot), old(q.live[id].link.inbound)) == Some(r.data)
    ensures r.ClientDone? ==>
              && id in old(q.live) && NextInLine(old(q.live[id].slot), old(q.live[id].link.inbound)) == None
              && (old(q.live[id].slot).done || !old(q.live[id].link.inbound).senderOpen)
    ensures r.Error? ==> id !in q.live
    ensures r.NothingYet? ==>
              && id in old(q.live) && !old(q.live[id].slot).done && old(q.live[id].link.inbound).senderOpen
              && NextInLine(old(q.live[id].slot), old(q.live[id].link.inbound)) == None
  {
    var buf := new byte[FIRST_READ_BUFFER];
    var rc, got := ZPR_ERR_SHORT_BUFFER, 0;
    calls := 0;
    ghost var next := if id in q.live then NextInLine(q.live[id].slot, q.live[id].link.inbound) else None;
    while rc == -2
      invariant calls <= 2 && fresh(buf)
      invariant calls == 0 ==> buf.Length == 65536
      invariant calls == 1 ==> (rc == -2 <==> next.Some? && |next.value| > 65536)
      invariant calls == 2 ==> rc != -2 && next.Some? && |next.value| > 65536
      invariant calls == 0 ==> rc == ZPR_ERR_SHORT_BUFFER && buf.Length > 0 && q.live == old(q.live)
                               && (id in q.live ==> q.live[id].link.inbound == old(q.live[id].link.inbound))
      invariant calls >= 1 && rc == ZPR_ERR_SHORT_BUFFER ==>
                  && calls == 1 && id in old(q.live) && next.Some? && buf.Length == |next.value| > 0
                  && (id in q.live ==> q.live[id].slot.held == next && q.live[id].link == old(q.live[id]).link)
      invariant rc == Inbound.CALL_MESSAGE ==>
                  && id in old(q.live) && next.Some? && got == |next.value| <= buf.Length
                  && buf[..got] == next.value
      invariant rc == Inbound.CALL_CLIENT_DONE ==>
                  && id in old(q.live) && next == None
                  && (old(q.live[id].slot).done || !old(q.live[id].link.inbound).senderOpen)
      invariant rc == Inbound.CALL_NONE ==>
                  && id in old(q.live) && next == None
                  && !old(q.live[id].slot).done && old(q.live[id].link.inbound).senderOpen
      invariant id !in q.live ||
                rc in {ZPR_ERR_SHORT_BUFFER, Inbound.CALL_MESSAGE, Inbound.CALL_CLIENT_DONE, Inbound.CALL_NONE}
      decreases if rc == ZPR_ERR_SHORT_BUFFER then 2 - calls else 0
    {
      rc, got := q.ReadInto(id, buf, buf.Length);
      calls := calls + 1;
      if rc == -2 {
        OthersActBetweenReads(q, id);
        buf := new byte[got];
      }
    }
    r := match rc
      case 1 => Message(buf[..got])
      case 0 => NothingYet
      case 2 => ClientDone
      case _ => Error;
  }

  /** What others may do to the queue between two accepts of the only acceptor: `CallTable.ShortAcceptKeepsFront`. */
  method OthersActBetweenAccepts(q: CallQueue)
    modifies q
    ensures old(q.pending) <= q.pending
  {
    var arrived: seq<CallTable.Ticket> := *;
    q.pending := q.pending + arrived;
  }

  /** At most two native calls; on success the call that was first in line when the accept began, with its whole path.
      `text` is the method name the host sees: it is read up to a NUL, from the path on into the memory after it. */
  method AcceptCall(q: CallQueue, beyond: seq<byte>)
      returns (call: Option<CallTable.Ticket>, text: seq<byte>, calls: nat)
    modifies q
    ensures calls == if old(q.pending) != [] && |old(q.pending)[0].path| > 512 then 2 else 1
    ensures old(q.pending) == [] ==> call == None
    ensures old(q.pending) != [] ==> call == Some(old(q.pending)[0])
    ensures call.Some? ==> (text == call.value.path <==> 0 !in call.value.path && TextAt(beyond) == [])
  {
    var path := new byte[FIRST_ACCEPT_BUFFER];
    var rc, id := ZPR_ERR_SHORT_BUFFER, None;
    var len: nat := 0;
    calls := 0;
    while rc == -2
      invariant calls <= 2 && fresh(path)
      invariant calls == 0 ==> path.Length == 512
      invariant calls == 1 ==> (rc == -2 <==> old(q.pending) != [] && |old(q.pending)[0].path| > 512)
      invariant calls == 2 ==> rc != -2 && old(q.pending) != [] && |old(q.pending)[0].path| > 512
      invariant calls == 0 ==> rc == ZPR_ERR_SHORT_BUFFER && path.Length > 0 && q.pending == old(q.pending)
      invariant calls >= 1 && rc == ZPR_ERR_SHORT_BUFFER ==>
                  && calls == 1 && old(q.pending) != [] && q.pending != [] && q.pending[0] == old(q.pending)[0]
                  && path.Length == |old(q.pending)[0].path| > 0
      invariant rc != ZPR_ERR_SHORT_BUFFER ==>
                  if old(q.pending) == [] then rc == CallTable.ACCEPT_NONE
                  else
                    && rc == CallTable.ACCEPT_CALL && len <= path.Length
                    && id == Some(old(q.pending)[0].id) && path[..len] == old(q.pending)[0].path
      decreases if rc == ZPR_ERR_SHORT_BUFFER then 2 - calls else 0
    {
      rc, id, len := q.Accept(path, path.Length, len);
      calls := calls + 1;
      if rc == -2 {
        OthersActBetweenAccepts(q);
        path := new byte[len];
      }
    }
    if rc != 1 {
      return None, [], calls;
    }
    call := Some(CallTable.Ticket(id.value, path[..len]));
    text := TextAt(path[..len] + beyond);
    TextIsWholeIff(path[..len], beyond);
  }

  // ---- Completion ------------------------------------------------------------------------

  /** A call object and the call it stands for: whether that is still live, the native completions the object has
      made, and the status with which one of them answered the call. */
  datatype Handle = Handle(live: bool, told: seq<Status>, answer: Option<Status>)

  /** Only the first completion reaches the library, and it answers only a call that is still there, with a message
      that the library accepts. The object takes itself for completed either way. */
  function AfterComplete(h: Handle, st: Status): Handle {
    if h.told != [] then h
    else if h.live && Received(st).Some? then Handle(false, [st], Received(st))
    else h.(told := [st])
  }

  /** What can happen to a call while its object exists: the host completes it, or another party takes it out. */
  datatype Event = Completing(st: Status) | TakenOut

  function AfterEvent(h: Handle, e: Event): Handle {
    match e
    case Completing(st) => AfterComplete(h, st)
    case TakenOut => h.(live := false)
  }

  function AfterAll(h: Handle, events: seq<Event>): Handle
    decreases |events|
  {
    if events == [] then h else AfterAll(AfterEvent(h, events[0]), events[1..])
  }

  /** The status of the first completion, the destructor's coming last. */
  function FirstStatus(events: seq<Event>, last: Status): Status {
    if events == [] then last
    else if events[0].Completing? then events[0].st
    else FirstStatus(events[1..], last)
  }

  /** Another party was there before the first completion. */
  predicate TakenBeforeFirst(events: seq<Event>) {
    events != [] && events[0].TakenOut?
  }

  lemma {:induction false} SettledStays(h: Handle, events: seq<Event>, last: Status)
    requires h.told != []
    ensures var t := AfterComplete(AfterAll(h, events), last);
            t == h.(live := h.live && TakenOut !in events)
    decreases |events|
  {
    if events != [] {
      SettledStays(AfterEvent(h, events[0]), events[1..], last);
      assert events == [events[0]] + events[1..];
    }
  }

  /** Over every list of completions, with other parties taking the call out anywhere among them, and the destructor at
      the end: the library is told exactly once, of the first status or else the destructor's. The call outlives
      its object if and only if nobody else took it out and the message of that one status was refused. */
  lemma {:induction false} CompletedExactlyOnce(h: Handle, events: seq<Event>, last: Status)
    requires h.told == [] && h.answer == None
    ensures var t := AfterComplete(AfterAll(h, events), last);
            var first := FirstStatus(events, last);
            && t.told == [first]
            && (t.live <==> h.live && TakenOut !in events && Received(first).None?)
            && t.answer == (if h.live && !TakenBeforeFirst(events) then Received(first) else None)
    decreases |events|
  {
    if events != [] {
      assert events == [events[0]] + events[1..];
      if events[0].Completing? {
        SettledStays(AfterEvent(h, events[0]), events[1..], last);
      } else {
        CompletedExactlyOnce(AfterEvent(h, events[0]), events[1..], last);
      }
    }
  }

  /** Freeing an object that was never completed does answer a call that is still live, the destructor's message being
      plain text. */
  lemma FreeingCompletes(h: Handle, last: Status)
    requires h.live && h.told == [] && Ascii(last.text)
    ensures AfterComplete(h, last) == Handle(false, [last], Some(last))
  {
    AsciiIsReceived(last.code, last.text);
  }

  /** But one completion with a message that is not UTF-8 spends the object without answering: the call stays live after
      the object is freed. */
  lemma RefusedTextLeavesCallLive(code: int, last: Status)
    ensures var bad := Status(code, [0xFF]);
            var t := AfterComplete(AfterComplete(Handle(true, [], None), bad), last);
            Received(bad) == None && t.live && t.told == [bad] && t.answer == None
  {
    assert TextAt([0xFF]) == [0xFF] && CharLength([0xFF]) == 0;
  }

  class GrpcCall {
    const queue: CallQueue
    const id: nat
    var completed: bool
    ghost var told: seq<Status>         // the native completions this object has made
    ghost var answer: Option<Status>    // the status with which one of them answered the call

    ghost predicate Valid()
      reads this
    {
      (completed <==> told != []) && (answer.Some? ==> completed)
    }

    ghost function View(): Handle
      reads this, queue
    {
      Handle(id in queue.live, told, answer)
    }

    constructor (queue: CallQueue, id: nat)
      ensures Valid() && this.queue == queue && this.id == id && View() == Handle(id in queue.live, [], None)
    {
      this.queue, this.id, completed, told, answer := queue, id, false, [], None;
    }

    /** The return code of the library is not looked at. */
    method Complete(st: Status)
      requires Valid() && queue.Valid()
      modifies this`completed, this`told, this`answer, queue`live, queue`completed, Links(queue.live)
      ensures Valid() && queue.Valid()
      ensures View() == AfterComplete(old(View()), st)
      ensures answer == old(answer) ==> unchanged(queue)
      ensures answer != old(answer) ==>
                && answer.Some? && id in old(queue.live)
                && queue.live == old(queue.live) - {id} && Ended(old(queue.live)[id].link, answer.value)
      ensures forall x | x in queue.live :: unchanged(queue.live[x].link)
    {
      if completed {
        return;
      }
      completed := true;
      told := told + [st];
      answer := if id in queue.live then Received(st) else None;
      RefusedIffUnreadable(st);
      var _ := queue.Complete(id, st);
    }

    /** Freeing the object completes the call with UNAVAILABLE, unless the host has made a completion, answered or
        not. */
    method Destroy(text: seq<byte>)
      requires Valid() && queue.Valid()
      modifies this`completed, this`told, this`answer, queue`live, queue`completed, Links(queue.live)
      ensures Valid() && queue.Valid()
      ensures View() == AfterComplete(old(View()), Status(GRPC_UNAVAILABLE, text))
      ensures answer == old(answer) ==> unchanged(queue)
      ensures answer != old(answer) ==>
                && answer.Some? && id in old(queue.live)
                && queue.live == old(queue.live) - {id} && Ended(old(queue.live)[id].link, answer.value)
      ensures forall x | x in queue.live :: unchanged(queue.live[x].link)
    {
      if !completed {
        Complete(Status(GRPC_UNAVAILABLE, text));
      }
    }
  }
}
