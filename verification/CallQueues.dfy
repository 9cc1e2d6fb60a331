/** The queued server's shared object, one method per lock region or entry point. Each method is tied to the
    step of the same name in the protocol of `CallTable`, `Inbound` or `Outbound`. */
module CallQueues {
  import opened Bytes
  import opened Ffi
  import opened Channels
  import opened Text
  import opened Trailers
  import CallTable
  import Inbound
  import Outbound

  const WRITE_FULL := 0
  const WRITE_SENT := 1

  /** One live call: the server's ends of its channels, its read slot and its deadline. */
  datatype LiveCall = LiveCall(link: CallLink, slot: Inbound.Slot, expiresAt: nat)

  /** Compared with the state at entry, the call has been answered with `st` and its channel ends are gone. */
  twostate predicate Ended(link: CallLink, st: Status)
    requires old(link.status.senderOpen)
    reads link
  {
    && link.status == old(link.status).Send(st)
    && link.outbound == old(link.outbound).DropSender()
    && link.inbound == old(link.inbound).DropReceiver()
  }

  /** The status goes out first; only then do the channel ends drop, so a body that finds its channel closed
      always finds the status waiting. */
  method End(link: CallLink, st: Status)
    requires link.status.senderOpen
    modifies link
    ensures Ended(link, st)
  {
    link.SendStatus(st);
    link.inbound := link.inbound.DropReceiver();
    link.outbound := link.outbound.DropSender();
  }

  function Links(live: map<nat, LiveCall>): set<CallLink> {
    set id | id in live :: live[id].link
  }

  /** No two calls share their channels, and every call still has its status to send. */
  ghost predicate Separate(live: map<nat, LiveCall>)
    reads Links(live)
  {
    && (forall id | id in live :: live[id].link.status.senderOpen)
    && (forall a, b | a in live && b in live && a != b :: live[a].link != live[b].link)
  }

  /** Answer every call of `ids`, in whatever order the map yields them. */
  method EndAll(live: map<nat, LiveCall>, ids: set<nat>, st: Status)
    requires Separate(live) && ids <= live.Keys
    modifies Links(live)
    ensures forall id | id in ids :: Ended(live[id].link, st)
    ensures forall id | id in live.Keys - ids :: unchanged(live[id].link)
  {
    var todo := ids;
    while todo != {}
      invariant todo <= ids
      invariant forall id | id in ids && id !in todo :: Ended(live[id].link, st)
      invariant forall id | id in live && (id in todo || id !in ids) :: unchanged(live[id].link)
      decreases todo
    {
      var id :| id in todo;
      assert live[id].link in Links(live);
      End(live[id].link, st);
      todo := todo - {id};
    }
  }

  lemma RemoveNothing(m: map<nat, LiveCall>)
    ensures m - {} == m
  {
  }

  class CallQueue {
    var pending: seq<CallTable.Ticket>
    var live: map<nat, LiveCall>
    var nextId: nat
    var maxPending: nat
    var deadlineMs: nat
    var accepted: nat
    var completed: nat
    var refused: nat
    var reaped: nat

    ghost function View(): CallTable.Queue
      reads this
    {
      CallTable.Queue(pending, map id | id in live :: live[id].expiresAt, nextId, maxPending, deadlineMs,
                      accepted, completed, refused, reaped)
    }

    ghost predicate Valid()
      reads this, Links(live)
    {
      && Separate(live)
      && nextId >= 1
      && forall id | id in live :: id < nextId
    }

    constructor ()
      ensures Valid() && View() == CallTable.NEW_QUEUE
      ensures live == map[] && View() == CallTable.Queue([], map[], 1, 1024, 30_000, 0, 0, 0, 0)
    {
      pending, live, nextId, maxPending, deadlineMs := [], map[], 1, 1024, 30_000;
      accepted, completed, refused, reaped := 0, 0, 0, 0;
    }

    // ---- Arrival: four regions -----------------------------------------------------------

    method CheckDoor() returns (admitted: bool)
      modifies this`refused
      ensures admitted == !old(View()).IsFull()
      ensures View() == if admitted then old(View()) else old(View()).(refused := old(refused) + 1)
    {
      admitted := |pending| < maxPending;
      if !admitted {
        refused := refused + 1;
      }
    }

    method MintId() returns (id: nat)
      modifies this`nextId
      ensures id == old(nextId) && View() == old(View()).(nextId := id + 1)
    {
      id := nextId;
      nextId := nextId + 1;
    }

    method InsertCall(id: nat, call: LiveCall)
      modifies this`live
      ensures live == old(live)[id := call]
      ensures View() == old(View()).Insert(id, call.expiresAt)
    {
      live := live[id := call];
      assert View().live == old(View()).live[id := call.expiresAt];
    }

    method PushCall(id: nat, path: CallTable.Path)
      modifies this`pending
      ensures View() == old(View()).Push(CallTable.Ticket(id, path))
    {
      pending := pending + [CallTable.Ticket(id, path)];
    }

    /** The regions after the check: a fresh id, live under it, and last in line. */
    method Register(path: CallTable.Path, now: nat, link: CallLink) returns (id: nat)
      requires Valid() && link.status.senderOpen && link !in Links(live)
      modifies this`nextId, this`live, this`pending
      ensures Valid()
      ensures id == old(nextId) && id !in old(live)
      ensures View() == old(View()).(nextId := id + 1).Insert(id, CallTable.Expiry(now, old(deadlineMs)))
                                   .Push(CallTable.Ticket(id, path))
      ensures live == old(live)[id := LiveCall(link, Inbound.Slot(None, false), CallTable.Expiry(now, old(deadlineMs)))]
    {
      var ms := deadlineMs;
      id := MintId();
      InsertCall(id, LiveCall(link, Inbound.Slot(None, false), CallTable.Expiry(now, ms)));
      PushCall(id, path);
    }

    /** A whole arrival with nothing in between: refused RESOURCE_EXHAUSTED without a trace but the counter, or
        registered under a fresh id, live and last in line, with a response body listening to the new call's
        channels. */
    method HandleQueued(path: CallTable.Path, now: nat, busy: seq<byte>)
        returns (body: Outbound.OutboundBody?, refusal: Option<TrailerMap>)
      requires Valid()
      modifies this
      ensures Valid()
      ensures body == null <==> old(View()).IsFull()
      ensures refusal == if body == null then Some(TrailersOf(Status(8, busy))) else None
      ensures body == null ==> View() == old(View()).(refused := old(refused) + 1) && live == old(live)
      ensures body != null ==>
                var id := old(nextId);
                var q := old(View()).(nextId := id + 1);
                && View() == q.Insert(id, CallTable.Expiry(now, old(deadlineMs))).Push(CallTable.Ticket(id, path))
                && live.Keys == old(live).Keys + {id}
                && (forall x | x in old(live) :: live[x] == old(live)[x])
                && body.Valid() && body.phase.Streaming? && body.link == live[id].link && fresh(body.link)
                && body.link.inbound == NewChan(8) && body.link.outbound == NewChan(8)
                && live[id].expiresAt == now + CallTable.Lifespan(old(deadlineMs))
                && live[id].slot == Inbound.Slot(None, false)
    {
      var link := new CallLink(Inbound.INBOUND_CAPACITY, Outbound.OUTBOUND_CAPACITY);
      var admitted := CheckDoor();
      if !admitted {
        return null, Some(TrailersOf(Status(GRPC_RESOURCE_EXHAUSTED, busy)));
      }
      refusal := None;
      var _ := Register(path, now, link);
      body := new Outbound.OutboundBody(link);
    }

    // ---- The host ------------------------------------------------------------------------

    method Accept(out: array?<byte>, cap: nat, lenBefore: nat) returns (rc: int, id: Option<nat>, len: nat)
      requires out != null ==> cap <= out.Length
      modifies this`pending, this`accepted, out
      ensures var r := old(View()).Accept(DestOf(out, cap), lenBefore);
              && View() == r.q && rc == r.code && len == r.len
              && id == (if r.ticket.Some? then Some(r.ticket.value.id) else None)
              && (out != null && r.ticket.Some? ==> out[..] == r.ticket.value.path + old(out[..])[len..])
              && (out != null && r.ticket == None ==> out[..] == old(out[..]))
      ensures old(pending) == [] ==> rc == 0 && len == lenBefore && unchanged(this)
      ensures old(pending) != [] ==>
                var t := old(pending)[0];
                && len == |t.path|
                && (if |t.path| <= cap && (out == null ==> t.path == []) then
                      rc == 1 && id == Some(t.id) && pending == old(pending)[1..] && accepted == old(accepted) + 1
                    else rc == (if |t.path| > cap then -2 else -1) && id == None && unchanged(this))
    {
      if pending == [] {
        return CallTable.ACCEPT_NONE, None, lenBefore;
      }
      var t := pending[0];
      pending := pending[1..];
      rc, len := CopyInto(t.path, out, cap);
      if rc != ZPR_OK {
        pending := [t] + pending;
        assert pending == old(pending);
        return rc, None, len;
      }
      id := Some(t.id);
      accepted := accepted + 1;
      rc := CallTable.ACCEPT_CALL;
    }

    method ReadInto(id: nat, out: array?<byte>, cap: nat) returns (rc: int, len: nat)
      requires out != null ==> cap <= out.Length
      modifies this`live, out, (if id in live then {live[id].link} else {})`inbound
      ensures id !in old(live) ==> rc == ZPR_ERR && len == 0 && live == old(live)
      ensures id in old(live) ==>
                var call := old(live)[id];
                var r := Inbound.ReadCall(call.slot, old(call.link.inbound), DestOf(out, cap));
                && rc == r.code && len == r.len
                && live == old(live)[id := call.(slot := r.slot)]
                && call.link.inbound == r.chan
                && (out != null && r.got.Some? ==> out[..] == r.got.value + old(out[..])[len..])
                && (out != null && r.got == None ==> out[..] == old(out[..]))
      ensures View() == old(View())
    {
      len := 0;
      if id !in live {
        return ZPR_ERR, len;
      }
      var call := live[id];
      if call.slot.held.Some? {
        rc, len := CopyInto(call.slot.held.value, out, cap);
        if rc == ZPR_OK {
          live := live[id := call.(slot := call.slot.(held := None))];
          rc := Inbound.CALL_MESSAGE;
        }
        assert View().live == old(View()).live;
        return;
      }
      if call.slot.done {
        return Inbound.CALL_CLIENT_DONE, len;
      }
      var next := call.link.TryRecvInbound();
      match next {
        case Got(m) =>
          rc, len := CopyInto(m, out, cap);
          if rc != ZPR_OK {
            live := live[id := call.(slot := call.slot.(held := Some(m)))];
          } else {
            rc := Inbound.CALL_MESSAGE;
          }
        case Empty => rc := Inbound.CALL_NONE;
        case Disconnected =>
          live := live[id := call.(slot := call.slot.(done := true))];
          rc := Inbound.CALL_CLIENT_DONE;
      }
      assert View().live == old(View()).live;
    }

    method Write(id: nat, data: Message) returns (rc: int)
      modifies (if id in live then {live[id].link} else {})`outbound
      ensures id !in live ==> rc == ZPR_ERR
      ensures id in live ==>
                var (chan, r) := old(live[id].link.outbound).Offer(data);
                && live[id].link.outbound == chan
                && rc == (match r case Sent => 1 case Full => 0 case Closed => -1)
                && (rc == 1 <==> old(live[id].link.outbound).receiverOpen
                                 && |old(live[id].link.outbound).queue| < old(live[id].link.outbound).cap)
                && (rc == 0 <==> old(live[id].link.outbound).receiverOpen
                                 && |old(live[id].link.outbound).queue| >= old(live[id].link.outbound).cap)
    {
      if id !in live {
        return ZPR_ERR;
      }
      var r := live[id].link.TrySendOutbound(data);
      rc := match r case Sent => WRITE_SENT case Full => WRITE_FULL case Closed => ZPR_ERR;
    }

    /** Completing removes the call, answers it with the host's status and counts it. A message that is not UTF-8 up to
        its first NUL is refused before the call is looked for, so the call stays; an id that is not live is
        refused too. A refusal changes nothing. */
    method Complete(id: nat, st: Status) returns (rc: int)
      requires Valid()
      modifies this`live, this`completed, Links(live)
      ensures Valid()
      ensures rc == if Readable(st) && id in old(live) then ZPR_OK else ZPR_ERR
      ensures rc == ZPR_OK ==>
                && Received(st).Some? && UpToNul(st.text, Received(st).value.text)
                && live == old(live) - {id} && Ended(old(live)[id].link, Received(st).value)
                && View() == old(View()).Remove({id}).(completed := old(completed) + 1)
      ensures rc != ZPR_OK ==> unchanged(this)
      ensures forall x | x in live :: unchanged(live[x].link)
    {
      var received := Received(st);
      RefusedIffUnreadable(st);
      if received.None? || id !in live {
        return ZPR_ERR;
      }
      var call := live[id];
      assert call.link in Links(live);
      live := live - {id};
      End(call.link, received.value);
      completed := completed + 1;
      assert View().live == old(View()).live - {id};
      rc := ZPR_OK;
    }

    method Configure(limit: nat, deadline: nat) returns (rc: int)
      modifies this`maxPending, this`deadlineMs
      ensures rc == if limit == 0 then ZPR_ERR else ZPR_OK
      ensures View() == if rc == ZPR_ERR then old(View()) else old(View()).SetLimit(limit).SetDeadline(deadline)
      ensures limit != 0 ==> maxPending == limit && deadlineMs == deadline
    {
      if limit == 0 {
        return ZPR_ERR;
      }
      maxPending, deadlineMs := limit, deadline;
      rc := ZPR_OK;
    }

    // ---- The reaper and the final free -----------------------------------------------------

    /** The locked part of a sweep: collect the expired ids, then take them out one by one. */
    method TakeExpired(now: nat) returns (ids: set<nat>)
      modifies this`live
      ensures ids == old(View()).Expired(now)
      ensures live == old(live) - ids
      ensures View() == old(View()).Remove(ids)
    {
      ids := set id | id in live && live[id].expiresAt <= now;
      var todo := ids;
      while todo != {}
        invariant todo <= ids <= old(live).Keys
        invariant live == old(live) - (ids - todo)
        decreases todo
      {
        var id :| id in todo;
        live := live - {id};
        assert old(live) - (ids - (todo - {id})) == old(live) - (ids - todo) - {id};
        todo := todo - {id};
      }
      assert View().live == old(View()).live - ids;
    }

    /** Take the expired calls out under the lock, then answer and count them outside it. */
    method AnswerExpired(now: nat, text: seq<byte>) returns (ids: set<nat>)
      requires Valid()
      modifies this`live, this`reaped, Links(live)
      ensures Valid()
      ensures ids == old(View()).Expired(now)
      ensures live == old(live) - ids && reaped == old(reaped) + |ids|
      ensures View() == old(View()).Remove(ids).(reaped := reaped)
      ensures forall id | id in ids ::
                id in old(live) && Ended(old(live)[id].link, Status(4, text))
      ensures forall id | id in live :: unchanged(live[id].link)
    {
      var calls := live;
      ids := TakeExpired(now);
      EndAll(calls, ids, Status(GRPC_DEADLINE_EXCEEDED, text));
      reaped := reaped + |ids|;
    }

    /** One tick of the reaper: with a zero deadline nothing happens; otherwise exactly the calls whose expiry has
        come are removed, answered DEADLINE_EXCEEDED and counted. */
    method Sweep(now: nat, text: seq<byte>) returns (ids: set<nat>)
      requires Valid()
      modifies this`live, this`reaped, Links(live)
      ensures Valid()
      ensures ids == if old(deadlineMs) == 0 then {} else old(View()).Expired(now)
      ensures old(deadlineMs) == 0 ==> unchanged(this)
      ensures live == old(live) - ids && reaped == old(reaped) + |ids|
      ensures forall id | id in ids ::
                id in old(live) && Ended(old(live)[id].link, Status(4, text))
      ensures forall id | id in live :: unchanged(live[id].link)
    {
      if deadlineMs == 0 {
        RemoveNothing(live);
        return {};
      }
      ids := AnswerExpired(now, text);
    }

    /** Every call still live is answered UNAVAILABLE, and none is left. */
    method Free(text: seq<byte>)
      requires Valid()
      modifies this`live, Links(live)
      ensures live == map[]
      ensures forall id | id in old(live) :: Ended(old(live)[id].link, Status(14, text))
    {
      var calls := live;
      live := map[];
      EndAll(calls, calls.Keys, Status(GRPC_UNAVAILABLE, text));
    }
  }
}
