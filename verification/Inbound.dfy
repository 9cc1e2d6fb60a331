/** The inbound half of one RPC: wire chunks, decoder, pump, bounded channel, held-message slot, host. */
module Inbound {
  import opened Bytes
  import opened Frames
  import opened Channels
  import opened Ffi

  const CALL_NONE := 0
  const CALL_MESSAGE := 1
  const CALL_CLIENT_DONE := 2
  const INBOUND_CAPACITY := 8

  /** The request body as hyper yields it: data frames, and others (trailers) that carry no data. */
  datatype BodyItem = Data(bytes: seq<byte>) | Other

  function Chunks(body: seq<BodyItem>): seq<seq<byte>> {
    if body == [] then []
    else (if body[0].Data? then [body[0].bytes] else []) + Chunks(body[1..])
  }

  function Payload(body: seq<BodyItem>): seq<byte> {
    Flatten(Chunks(body))
  }

  lemma PayloadHead(body: seq<BodyItem>)
    requires body != []
    ensures Payload(body) == (if body[0].Data? then body[0].bytes else []) + Payload(body[1..])
  {
    if body[0].Data? {
      assert Chunks(body)[1..] == Chunks(body[1..]);
    } else {
      assert Chunks(body) == Chunks(body[1..]);
    }
  }

  // ---- One host read -------------------------------------------------------------------

  /** The host's side of a live call: a message that did not fit, and whether the end was reported. */
  datatype Slot = Slot(held: Option<Message>, done: bool)

  datatype ReadResult = ReadResult(code: int, len: nat, got: Option<Message>, slot: Slot, chan: Chan<Message>)

  /** Hand `m` to a caller's buffer, or hold it. */
  function HandOver(m: Message, slot: Slot, chan: Chan<Message>, dest: Dest): ReadResult {
    var rc := CopyCode(|m|, dest);
    if rc == ZPR_OK then ReadResult(CALL_MESSAGE, |m|, Some(m), slot.(held := None), chan)
    else ReadResult(rc, |m|, None, slot.(held := Some(m)), chan)
  }

  function ReadCall(slot: Slot, chan: Chan<Message>, dest: Dest): ReadResult {
    if slot.held.Some? then HandOver(slot.held.value, slot, chan, dest)
    else if slot.done then ReadResult(CALL_CLIENT_DONE, 0, None, slot, chan)
    else
      var (chan', r) := chan.Take();
      match r
      case Got(m) => HandOver(m, slot, chan', dest)
      case Empty => ReadResult(CALL_NONE, 0, None, slot, chan)
      case Disconnected => ReadResult(CALL_CLIENT_DONE, 0, None, slot.(done := true), chan)
  }

  lemma HandOverConserves(m: Message, slot: Slot, chan: Chan<Message>, dest: Dest)
    ensures var r := HandOver(m, slot, chan, dest);
            && ToSeq(r.got) + ToSeq(r.slot.held) == [m] && r.chan == chan
            && (r.code == CALL_MESSAGE <==> r.got.Some?) && r.code != CALL_NONE && r.code != CALL_CLIENT_DONE
            && (r.got.Some? ==> r.len == |r.got.value| <= dest.cap)
            && (r.code == ZPR_ERR_SHORT_BUFFER ==> r.slot.held.Some? && r.len == |r.slot.held.value| > dest.cap)
  {
  }

  /** A read moves at most one message, to the host or into the slot, and never out of order. */
  lemma ReadConserves(slot: Slot, chan: Chan<Message>, dest: Dest)
    requires slot.done ==> slot.held == None && chan.queue == []
    ensures var r := ReadCall(slot, chan, dest);
            && ToSeq(r.got) + ToSeq(r.slot.held) + r.chan.queue == ToSeq(slot.held) + chan.queue
            && (r.code == CALL_MESSAGE <==> r.got.Some?)
            && (r.got.Some? ==> r.len == |r.got.value| <= dest.cap)
            && (r.code == CALL_NONE ==> ToSeq(slot.held) + chan.queue == [] && chan.senderOpen)
            && (r.code == ZPR_ERR_SHORT_BUFFER ==> r.slot.held.Some? && r.len == |r.slot.held.value| > dest.cap)
            && (r.code == CALL_CLIENT_DONE ==> r.slot.done && chan.queue == [] && slot.held == None)
            && (r.code == CALL_CLIENT_DONE ==> slot.done || !chan.senderOpen)
  {
    if slot.held.Some? {
      HandOverConserves(slot.held.value, slot, chan, dest);
    } else if !slot.done && chan.queue != [] {
      HandOverConserves(chan.queue[0], slot, chan.Take().0, dest);
      assert [chan.queue[0]] + chan.queue[1..] == chan.queue;
    }
  }

  /** Exactly what one host read answers. The message next in line is handed over with 1 if it fits, and otherwise held
      and its size reported, with -2 if it is longer than the buffer and -1 if there is no buffer for its bytes. With
      nothing in line the answer is 2 once the sender is gone, and from then on, and 0 before. */
  lemma ReadOutcome(slot: Slot, chan: Chan<Message>, dest: Dest)
    requires slot.done ==> slot.held == None && chan.queue == []
    ensures var r := ReadCall(slot, chan, dest);
            var line := ToSeq(slot.held) + chan.queue;
            if line != [] then
              var m, rest := line[0], chan.(queue := line[1..]);
              && r.len == |m| && r.chan == rest && r.slot.done == slot.done
              && if |m| <= dest.cap && (dest.isNull ==> m == []) then
                   r.code == 1 && r.got == Some(m) && r.slot.held == None
                 else
                   r.code == (if |m| > dest.cap then -2 else -1) && r.got == None && r.slot.held == Some(m)
            else
              && r.len == 0 && r.got == None && r.chan == chan && r.slot.held == None
              && r.slot.done == (slot.done || !chan.senderOpen)
              && r.code == if slot.done || !chan.senderOpen then 2 else 0
  {
    assert ToSeq(slot.held) + chan.queue == if slot.held.Some? then [slot.held.value] + chan.queue else chan.queue;
    if slot.held.Some? {
      assert ([slot.held.value] + chan.queue)[1..] == chan.queue;
    }
  }

  // ---- The protocol: pump and host interleaved step by step ------------------------------

  datatype Pump = Awaiting | Decoding | Sending(msg: Message) | Finished

  datatype State = State(
    body: seq<BodyItem>,        // still to arrive
    buf: seq<byte>,
    pump: Pump,
    chan: Chan<Message>,
    slot: Slot,
    live: bool,                 // the call is in the live map
    forwarded: seq<Message>,    // history: sent into the channel
    delivered: seq<Message>,    // history: handed to the host
    clean: bool                 // history: the pump saw the end of the body
  )

  datatype Label =
    | NextFrame | BodyEnd | BodyError      // the pump awaits the body
    | Decode | Send                        // the pump drains its buffer
    | Read(dest: Dest)                     // the host reads
    | Remove | Drop                        // the call leaves the live map; its channel ends are dropped

  function Init(body: seq<BodyItem>): State {
    State(body, [], Awaiting, NewChan(INBOUND_CAPACITY), Slot(None, false), true, [], [], false)
  }

  function Finish(s: State): State {
    s.(pump := Finished, chan := s.chan.DropSender())
  }

  /** One atomic step. A step that is not possible in `s` leaves `s` as it is. */
  function Step(s: State, l: Label): State {
    match l
    case NextFrame =>
      if s.pump.Awaiting? && s.body != [] then
        match s.body[0]
        case Data(bytes) => s.(body := s.body[1..], buf := s.buf + bytes, pump := Decoding)
        case Other => s.(body := s.body[1..])
      else s
    case BodyEnd => if s.pump.Awaiting? && s.body == [] then Finish(s).(clean := true) else s
    case BodyError => if s.pump.Awaiting? then Finish(s) else s
    case Decode =>
      if s.pump.Decoding? then
        match DecodeOne(s.buf)
        case Incomplete => s.(pump := Awaiting)
        case BadFlag => s.(buf := [], pump := Awaiting)
        case Frame(m, rest) => s.(buf := rest, pump := Sending(m))
      else s
    case Send =>
      if s.pump.Sending? then
        var (chan', r) := s.chan.Offer(s.pump.msg);
        match r
        case Sent => s.(chan := chan', pump := Decoding, forwarded := s.forwarded + [s.pump.msg])
        case Full => s
        case Closed => Finish(s)
      else s
    case Read(dest) =>
      if s.live then
        var r := ReadCall(s.slot, s.chan, dest);
        s.(slot := r.slot, chan := r.chan, delivered := s.delivered + ToSeq(r.got))
      else s
    case Remove => s.(live := false)
    case Drop => if s.live then s else s.(chan := s.chan.DropReceiver())
  }

  function Run(s: State, schedule: seq<Label>): State
    decreases |schedule|
  {
    if schedule == [] then s else Run(Step(s, schedule[0]), schedule[1..])
  }

  /** Every message of `total` is in exactly one place: delivered, held, queued, in the pump's hand,
      or still undecoded; and always in that order. */
  ghost predicate Inv(s: State, total: seq<Message>) {
    && (s.pump.Finished? <==> !s.chan.senderOpen)
    && s.chan.cap == INBOUND_CAPACITY && |s.chan.queue| <= INBOUND_CAPACITY
    && (s.pump.Awaiting? ==> DecodeOne(s.buf).Incomplete?)
    && (if s.pump.Finished? then
          s.forwarded <= total && (s.clean ==> s.forwarded == total)
        else
          && !s.clean
          && !BadBoundary(s.buf + Payload(s.body))
          && s.forwarded + InHand(s) + Drain(s.buf + Payload(s.body)).msgs == total)
    && (if s.chan.receiverOpen then s.delivered + ToSeq(s.slot.held) + s.chan.queue == s.forwarded
        else s.delivered + ToSeq(s.slot.held) <= s.forwarded && s.chan.queue == [])
    && (s.live ==> s.chan.receiverOpen)
    && (s.slot.done ==> s.slot.held == None && s.chan.queue == [] && s.pump.Finished? && s.delivered == s.forwarded)
  }

  function InHand(s: State): seq<Message> {
    if s.pump.Sending? then [s.pump.msg] else []
  }

  lemma NextFrameKeepsStream(s: State)
    requires s.pump.Awaiting? && s.body != []
    ensures var t := Step(s, NextFrame); t.buf + Payload(t.body) == s.buf + Payload(s.body)
  {
    PayloadHead(s.body);
    var more := Payload(s.body[1..]);
    if s.body[0].Data? {
      Regroup(s.buf, s.body[0].bytes, more);
    } else {
      assert [] + more == more;
    }
  }

  lemma NextFrameKeepsInv(s: State, total: seq<Message>)
    requires Inv(s, total) && s.pump.Awaiting? && s.body != []
    ensures Inv(Step(s, NextFrame), total)
  {
    NextFrameKeepsStream(s);
    var t := Step(s, NextFrame);
    assert InHand(t) == InHand(s) == [];
    assert t == s.(body := t.body, buf := t.buf, pump := t.pump) && !t.pump.Finished?;
  }

  lemma BodyEndKeepsInv(s: State, total: seq<Message>)
    requires Inv(s, total) && s.pump.Awaiting? && s.body == []
    ensures Inv(Step(s, BodyEnd), total)
  {
    assert s.buf + Payload(s.body) == s.buf;
    assert s.forwarded + [] + [] == s.forwarded;
  }

  /** Taking a frame off the buffer takes the message off what is still to be decoded, and nothing else. */
  lemma DecodeKeepsStream(buf: seq<byte>, more: seq<byte>)
    requires !BadBoundary(buf + more) && DecodeOne(buf).Frame?
    ensures !BadBoundary(DecodeOne(buf).rest + more)
    ensures Drain(buf + more).msgs == [DecodeOne(buf).msg] + Drain(DecodeOne(buf).rest + more).msgs
  {
    DecodeExtends(buf, more);
  }

  lemma BadFlagEndsStream(buf: seq<byte>, more: seq<byte>)
    requires !BadBoundary(buf + more) && DecodeOne(buf).BadFlag?
    ensures more == [] && Drain(buf + more).msgs == []
  {
    DecodeExtends(buf, more);
  }

  lemma DecodeKeepsInv(s: State, total: seq<Message>)
    requires Inv(s, total) && s.pump.Decoding?
    ensures Inv(Step(s, Decode), total)
  {
    var more := Payload(s.body);
    match DecodeOne(s.buf)
    case Incomplete =>
    case BadFlag =>
      BadFlagEndsStream(s.buf, more);
      assert [] + more == [];
    case Frame(m, rest) =>
      DecodeKeepsStream(s.buf, more);
      assert s.forwarded + [] == s.forwarded;
      Regroup(s.forwarded, [m], Drain(rest + more).msgs);
  }

  lemma SendKeepsInv(s: State, total: seq<Message>)
    requires Inv(s, total) && s.pump.Sending?
    ensures Inv(Step(s, Send), total)
  {
    var t := Step(s, Send);
    if t.pump.Decoding? {
      assert s.forwarded + [s.pump.msg] == t.forwarded + InHand(t);
      Regroup(s.delivered + ToSeq(s.slot.held), s.chan.queue, [s.pump.msg]);
    }
  }

  lemma ReadMoves(d: seq<Message>, got: seq<Message>, held: seq<Message>, queue: seq<Message>, line: seq<Message>)
    requires got + held + queue == line
    ensures (d + got) + held + queue == d + line
  {
  }

  /** A read leaves the line as it is, from the first message delivered to the last one queued. */
  lemma ReadKeepsLine(slot: Slot, chan: Chan<Message>, dest: Dest, d: seq<Message>)
    requires slot.done ==> slot.held == None && chan.queue == []
    ensures var r := ReadCall(slot, chan, dest);
            && (d + ToSeq(r.got)) + ToSeq(r.slot.held) + r.chan.queue == d + ToSeq(slot.held) + chan.queue
            && r.chan == chan.(queue := r.chan.queue) && |r.chan.queue| <= |chan.queue|
            && (r.slot.done ==>
                  slot.done || (!chan.senderOpen && r.got == None && r.slot.held == None && r.chan.queue == []))
            && (slot.done ==> r == ReadResult(CALL_CLIENT_DONE, 0, None, slot, chan))
  {
    ReadConserves(slot, chan, dest);
    var r := ReadCall(slot, chan, dest);
    Regroup(d, ToSeq(slot.held), chan.queue);
    ReadMoves(d, ToSeq(r.got), ToSeq(r.slot.held), r.chan.queue, ToSeq(slot.held) + chan.queue);
  }

  lemma ReadKeepsInv(s: State, dest: Dest, total: seq<Message>)
    requires Inv(s, total) && s.live
    ensures Inv(Step(s, Read(dest)), total)
  {
    ReadKeepsLine(s.slot, s.chan, dest, s.delivered);
    var t := Step(s, Read(dest));
    assert t == s.(slot := t.slot, chan := t.chan, delivered := t.delivered);
    if t.slot.done {
      assert t.delivered + [] + [] == t.delivered;
    }
  }

  lemma StepKeepsInv(s: State, l: Label, total: seq<Message>)
    requires Inv(s, total)
    ensures Inv(Step(s, l), total)
  {
    if Step(s, l) != s {
      match l
      case NextFrame => NextFrameKeepsInv(s, total);
      case BodyEnd => BodyEndKeepsInv(s, total);
      case BodyError =>
      case Decode => DecodeKeepsInv(s, total);
      case Send => SendKeepsInv(s, total);
      case Read(dest) => ReadKeepsInv(s, dest, total);
      case Remove =>
      case Drop =>
    }
  }

  lemma {:induction false} RunKeepsInv(s: State, schedule: seq<Label>, total: seq<Message>)
    requires Inv(s, total)
    ensures Inv(Run(s, schedule), total)
    decreases |schedule|
  {
    if schedule != [] {
      StepKeepsInv(s, schedule[0], total);
      RunKeepsInv(Step(s, schedule[0]), schedule[1..], total);
    }
  }

  lemma NilLeft<T>(a: seq<T>)
    ensures [] + a == a
  {
  }

  lemma InitHoldsInv(body: seq<BodyItem>)
    requires !BadBoundary(Payload(body))
    ensures Inv(Init(body), Drain(Payload(body)).msgs)
  {
    var s := Init(body);
    NilLeft(Payload(body));
    NilLeft(Drain(Payload(body)).msgs);
    assert s.forwarded + InHand(s) == [] && s.delivered + ToSeq(s.slot.held) + s.chan.queue == [];
  }

  /** End-to-end fidelity. For every list of client messages, every chunking of (a prefix of) their frames,
      every interleaving of pump and host and every sequence of buffers, the host has always been
      handed a prefix of the client's list; the end is reported only after everything forwarded was
      delivered, and if the whole body came in, only after everything sent was. */
  lemma InboundFidelity(msgs: seq<Message>, body: seq<BodyItem>, schedule: seq<Label>)
    requires AllFit(msgs) && Payload(body) <= EncodeAll(msgs)
    ensures var s := Run(Init(body), schedule);
            && s.delivered <= s.forwarded <= msgs
            && |s.chan.queue| <= 8
            && (s.live ==> s.delivered + ToSeq(s.slot.held) + s.chan.queue == s.forwarded)
            && (s.slot.done ==> s.delivered == s.forwarded)
            && (s.slot.done && s.clean && Payload(body) == EncodeAll(msgs) ==> s.delivered == msgs)
  {
    DrainOfPrefix(msgs, Payload(body));
    InitHoldsInv(body);
    RunKeepsInv(Init(body), schedule, Drain(Payload(body)).msgs);
  }

  /** A call stays live exactly as long as nobody removes it. */
  lemma {:induction false} LiveUntilRemoved(s: State, schedule: seq<Label>)
    ensures Run(s, schedule).live <==> s.live && Remove !in schedule
    decreases |schedule|
  {
    if schedule != [] {
      LiveUntilRemoved(Step(s, schedule[0]), schedule[1..]);
      assert schedule == [schedule[0]] + schedule[1..];
    }
  }

  /** As long as nobody removes the call and the body does not fail, the host can still be handed the client's whole
      list, and then the end. */
  lemma WholeListCanArrive(msgs: seq<Message>, body: seq<BodyItem>, schedule: seq<Label>) returns (rest: seq<Label>)
    requires AllFit(msgs) && Payload(body) == EncodeAll(msgs)
    requires Remove !in schedule && BodyError !in schedule
    ensures var t := Run(Run(Init(body), schedule), rest); t.live && t.delivered == msgs && t.slot.done
  {
    var total := Drain(Payload(body)).msgs;
    DrainOfPrefix(msgs, Payload(body));
    InitHoldsInv(body);
    RunKeepsInv(Init(body), schedule, total);
    LiveUntilRemoved(Init(body), schedule);
    NoErrorEndsClean(Init(body), schedule);
    var s := Run(Init(body), schedule);
    if s.slot.done {
      rest := [];
    } else {
      rest := CanAlwaysFinish(s, total);
    }
  }

  /** Without a body error and with the receiver kept, a pump that has finished saw the end of the body. */
  lemma {:induction false} NoErrorEndsClean(s: State, schedule: seq<Label>)
    requires Remove !in schedule && BodyError !in schedule
    requires s.live && s.chan.receiverOpen && (s.pump.Finished? ==> s.clean)
    ensures var t := Run(s, schedule); t.pump.Finished? ==> t.clean
    decreases |schedule|
  {
    if schedule != [] {
      assert schedule[0] in schedule;
      NoErrorEndsClean(Step(s, schedule[0]), schedule[1..]);
    }
  }

  /** Once the call is gone and its receiver dropped, the pump's next send is its last step. */
  lemma RemovedPumpStops(s: State)
    requires !s.live && s.pump.Sending?
    ensures Step(Step(s, Drop), Send).pump.Finished? && Step(Step(s, Drop), Send).forwarded == s.forwarded
  {
  }

  /** Once reported, the end stays: every later read of the live call answers CLIENT_DONE, whatever
      else happens, until the call is removed. */
  lemma {:induction false} DoneIsStable(s: State, schedule: seq<Label>, dest: Dest)
    requires s.live && s.slot == Slot(None, true) && Remove !in schedule
    ensures var t := Run(s, schedule);
            t.live && t.delivered == s.delivered && ReadCall(t.slot, t.chan, dest).code == CALL_CLIENT_DONE
    decreases |schedule|
  {
    if schedule != [] {
      assert schedule[0] in schedule;
      DoneIsStable(Step(s, schedule[0]), schedule[1..], dest);
    }
  }

  /** Between two reads of a single reader, the held message can only stay as it is or vanish with the call. */
  lemma {:induction false} HeldIsStable(s: State, schedule: seq<Label>)
    requires forall l | l in schedule :: !l.Read?
    ensures var t := Run(s, schedule); t.slot == s.slot && (t.live ==> s.live)
    decreases |schedule|
  {
    if schedule != [] {
      assert schedule[0] in schedule;
      HeldIsStable(Step(s, schedule[0]), schedule[1..]);
    }
  }

  function PumpRank(p: Pump): nat {
    match p case Finished => 0 case Awaiting => 1 case Decoding => 2 case Sending(_) => 3
  }

  /** A step that makes progress: the pump advances if it can, and otherwise the host reads with a big enough buffer. */
  function GreedyLabel(s: State): Label {
    var waiting := Waiting(s);
    var read := Read(Dest(false, if waiting == [] then 0 else |waiting[0]|));
    match s.pump
    case Finished => read
    case Awaiting => if s.body == [] then BodyEnd else NextFrame
    case Decoding => Decode
    case Sending(_) => if |s.chan.queue| < s.chan.cap then Send else read
  }

  function Waiting(s: State): seq<Message> {
    ToSeq(s.slot.held) + s.chan.queue
  }

  /** `t` is closer to the end of the call than `s`. */
  predicate Closer(t: State, s: State) {
    || |t.body| < |s.body|
    || (t.body == s.body && |t.buf| < |s.buf|)
    || (t.body == s.body && t.buf == s.buf && PumpRank(t.pump) < PumpRank(s.pump))
    || (t.body == s.body && t.buf == s.buf && t.pump == s.pump && |Waiting(t)| < |Waiting(s)|)
  }

  lemma GreedyRead(s: State, total: seq<Message>)
    requires Inv(s, total) && s.live && !s.slot.done && GreedyLabel(s).Read?
    ensures var t := Step(s, GreedyLabel(s)); t.live && t.pump == s.pump && (t.slot.done || Closer(t, s))
  {
    ReadConserves(s.slot, s.chan, GreedyLabel(s).dest);
  }

  /** A greedy step gets closer to the end, or reports it. */
  lemma GreedyProgress(s: State, total: seq<Message>)
    requires Inv(s, total) && s.live && !s.slot.done
    ensures var t := Step(s, GreedyLabel(s));
            && t.live
            && (!s.pump.Finished? || s.clean ==> !t.pump.Finished? || t.clean)
            && (t.slot.done || Closer(t, s))
  {
    if GreedyLabel(s).Read? {
      GreedyRead(s, total);
    }
  }

  /** No reachable state is stuck: as long as the call is live and the body did not fail, some continuation
      hands over the client's whole list and then reports the end. */
  lemma {:induction false} CanAlwaysFinish(s: State, total: seq<Message>) returns (schedule: seq<Label>)
    requires Inv(s, total) && s.live && !s.slot.done
    ensures var t := Run(s, schedule); t.live && t.slot.done && t.delivered == t.forwarded
    ensures !s.pump.Finished? || s.clean ==> Run(s, schedule).delivered == total
    decreases |s.body|, |s.buf|, PumpRank(s.pump), |Waiting(s)|
  {
    var l := GreedyLabel(s);
    var t := Step(s, l);
    GreedyProgress(s, total);
    StepKeepsInv(s, l, total);
    var rest := [];
    if !t.slot.done {
      rest := CanAlwaysFinish(t, total);
    }
    schedule := [l] + rest;
    assert schedule[1..] == rest;
  }

  // ---- What the reported end means -------------------------------------------------------

  /** The bytes the pump has taken off a body that began as `payload`. */
  function TakenBytes(s: State, payload: seq<byte>): seq<byte> {
    if |Payload(s.body)| <= |payload| then payload[..|payload| - |Payload(s.body)|] else []
  }

  /** Every byte taken off the body is accounted for: as messages forwarded, in hand or still in the buffer, and as
      an unfinished frame. A pump that ended for any other reason than a hang-up left nothing undecoded. */
  ghost predicate Account(s: State, payload: seq<byte>) {
    var taken := TakenBytes(s, payload);
    && taken + Payload(s.body) == payload
    && if s.pump.Finished? then
         s.chan.receiverOpen || s.slot.done ==> s.forwarded == Drain(taken).msgs
       else
         && s.forwarded + InHand(s) + Drain(s.buf).msgs == Drain(taken).msgs
         && Drain(s.buf).residue == Drain(taken).residue
  }

  lemma TakenGrows(s: State, payload: seq<byte>)
    requires s.body != [] && TakenBytes(s, payload) + Payload(s.body) == payload
    ensures var t := s.(body := s.body[1..]);
            && TakenBytes(t, payload) == TakenBytes(s, payload) + (if s.body[0].Data? then s.body[0].bytes else [])
            && TakenBytes(t, payload) + Payload(t.body) == payload
  {
    PayloadHead(s.body);
    var first := if s.body[0].Data? then s.body[0].bytes else [];
    Regroup(TakenBytes(s, payload), first, Payload(s.body[1..]));
  }

  /** A pump that awaits the body has forwarded all it could decode. */
  lemma AwaitingAccount(s: State, payload: seq<byte>)
    requires Account(s, payload) && s.pump.Awaiting? && DecodeOne(s.buf).Incomplete?
    ensures Drain(TakenBytes(s, payload)) == Drained(s.forwarded, s.buf)
  {
    assert s.forwarded + [] + [] == s.forwarded;
  }

  lemma ChunkKeepsDrain(taken: seq<byte>, chunk: seq<byte>, msgs: seq<Message>)
    requires AllFit(msgs) && taken + chunk <= EncodeAll(msgs)
    ensures var d := Drain(taken);
            Drain(taken + chunk) == Drained(d.msgs + Drain(d.residue + chunk).msgs, Drain(d.residue + chunk).residue)
  {
    DrainOfPrefix(msgs, taken + chunk);
    DrainSplits(taken, chunk);
  }

  lemma OtherKeepsAccount(s: State, payload: seq<byte>)
    requires Account(s, payload) && s.pump.Awaiting? && s.body != [] && s.body[0].Other?
    ensures Account(Step(s, NextFrame), payload)
  {
    TakenGrows(s, payload);
    assert TakenBytes(s, payload) + [] == TakenBytes(s, payload);
  }

  lemma DataKeepsAccount(s: State, payload: seq<byte>, msgs: seq<Message>)
    requires AllFit(msgs) && payload <= EncodeAll(msgs) && Account(s, payload)
    requires s.pump.Awaiting? && s.body != [] && s.body[0].Data? && DecodeOne(s.buf).Incomplete?
    ensures Account(Step(s, NextFrame), payload)
  {
    var t := Step(s, NextFrame);
    TakenGrows(s, payload);
    AwaitingAccount(s, payload);
    ChunkKeepsDrain(TakenBytes(s, payload), s.body[0].bytes, msgs);
    assert t.forwarded + InHand(t) == s.forwarded;
  }

  lemma NextFrameKeepsAccount(s: State, payload: seq<byte>, msgs: seq<Message>)
    requires AllFit(msgs) && payload <= EncodeAll(msgs) && Account(s, payload)
    requires s.pump.Awaiting? && s.body != [] && DecodeOne(s.buf).Incomplete?
    ensures Account(Step(s, NextFrame), payload)
  {
    if s.body[0].Data? {
      DataKeepsAccount(s, payload, msgs);
    } else {
      OtherKeepsAccount(s, payload);
    }
  }

  lemma DecodeKeepsAccount(s: State, payload: seq<byte>)
    requires Account(s, payload) && s.pump.Decoding?
    ensures Account(Step(s, Decode), payload)
  {
    assert s.forwarded + [] == s.forwarded;
    match DecodeOne(s.buf)
    case Incomplete =>
    case BadFlag => assert Drain([]) == Drain(s.buf);
    case Frame(m, rest) => Regroup(s.forwarded, [m], Drain(rest).msgs);
  }

  lemma SendKeepsAccount(s: State, payload: seq<byte>)
    requires Account(s, payload) && s.pump.Sending? && !s.slot.done
    ensures Account(Step(s, Send), payload)
  {
    assert s.forwarded + [s.pump.msg] + [] == s.forwarded + [s.pump.msg];
  }

  lemma EndKeepsAccount(s: State, payload: seq<byte>)
    requires Account(s, payload) && s.pump.Awaiting? && DecodeOne(s.buf).Incomplete?
    ensures Account(Finish(s), payload)
  {
    AwaitingAccount(s, payload);
  }

  lemma StepKeepsAccount(s: State, l: Label, total: seq<Message>, payload: seq<byte>, msgs: seq<Message>)
    requires AllFit(msgs) && payload <= EncodeAll(msgs) && Inv(s, total) && Account(s, payload)
    ensures Account(Step(s, l), payload)
  {
    if Step(s, l) != s {
      match l
      case NextFrame => NextFrameKeepsAccount(s, payload, msgs);
      case BodyEnd => EndKeepsAccount(s, payload);
      case BodyError => EndKeepsAccount(s, payload);
      case Decode => DecodeKeepsAccount(s, payload);
      case Send => SendKeepsAccount(s, payload);
      case Read(_) =>
      case Remove =>
      case Drop =>
    }
  }

  lemma {:induction false} RunKeepsAccount(
      s: State, schedule: seq<Label>, total: seq<Message>, payload: seq<byte>, msgs: seq<Message>)
    requires AllFit(msgs) && payload <= EncodeAll(msgs) && Inv(s, total) && Account(s, payload)
    ensures Inv(Run(s, schedule), total) && Account(Run(s, schedule), payload)
    decreases |schedule|
  {
    if schedule != [] {
      StepKeepsInv(s, schedule[0], total);
      StepKeepsAccount(s, schedule[0], total, payload, msgs);
      RunKeepsAccount(Step(s, schedule[0]), schedule[1..], total, payload, msgs);
    }
  }

  lemma Reachable(msgs: seq<Message>, body: seq<BodyItem>, schedule: seq<Label>)
    requires AllFit(msgs) && Payload(body) <= EncodeAll(msgs)
    ensures var s := Run(Init(body), schedule);
            Inv(s, Drain(Payload(body)).msgs) && Account(s, Payload(body))
  {
    DrainOfPrefix(msgs, Payload(body));
    InitHoldsInv(body);
    NilLeft(Payload(body));
    RunKeepsAccount(Init(body), schedule, Drain(Payload(body)).msgs, Payload(body), msgs);
  }

  /** A cut of the client's stream decodes to the whole list only if it is the whole stream. */
  lemma WholeListIffWholeStream(msgs: seq<Message>, s: seq<byte>)
    requires AllFit(msgs) && s <= EncodeAll(msgs)
    ensures Drain(s).msgs == msgs <==> s == EncodeAll(msgs)
  {
    DrainOfPrefix(msgs, s);
    DrainTakesEncodings(s);
  }

  lemma DoneStateIsExact(s: State, total: seq<Message>, msgs: seq<Message>, payload: seq<byte>)
    requires AllFit(msgs) && payload <= EncodeAll(msgs)
    requires Inv(s, total) && Account(s, payload) && s.slot.done
    ensures s.delivered == msgs <==> Payload(s.body) == [] && payload == EncodeAll(msgs)
  {
    var taken := TakenBytes(s, payload);
    WholeListIffWholeStream(msgs, taken);
    assert |payload| == |taken| + |Payload(s.body)| && |payload| <= |EncodeAll(msgs)|;
    if Payload(s.body) == [] {
      assert taken + [] == taken;
    }
  }

  /** What CLIENT_DONE means, exactly: the host has the client's whole list if and only if the pump had taken the
      whole body and the body was the client's whole stream. Over every message list, cut, chunking, interleaving
      and sequence of buffers. */
  lemma DoneMeansAllIffBodyExhausted(msgs: seq<Message>, body: seq<BodyItem>, schedule: seq<Label>)
    requires AllFit(msgs) && Payload(body) <= EncodeAll(msgs)
    ensures var s := Run(Init(body), schedule);
            s.slot.done ==> (s.delivered == msgs <==> Payload(s.body) == [] && Payload(body) == EncodeAll(msgs))
  {
    Reachable(msgs, body, schedule);
    var s := Run(Init(body), schedule);
    if s.slot.done {
      DoneStateIsExact(s, Drain(Payload(body)).msgs, msgs, Payload(body));
    }
  }

  lemma {:induction false} FinishedKeepsBody(s: State, schedule: seq<Label>)
    requires s.pump.Finished?
    ensures Run(s, schedule).body == s.body
    decreases |schedule|
  {
    if schedule != [] {
      FinishedKeepsBody(Step(s, schedule[0]), schedule[1..]);
    }
  }

  /** A failing body is not told apart from a finished one. Whenever the pump awaits the body of a live call, a failure
      ends, after some reads, in an ordinary CLIENT_DONE; and then the host's list is short if and only if part of the
      client's stream was outstanding when the body failed. */
  lemma BodyErrorLooksLikeEnd(msgs: seq<Message>, body: seq<BodyItem>, schedule: seq<Label>)
      returns (rest: seq<Label>)
    requires AllFit(msgs) && Payload(body) <= EncodeAll(msgs)
    requires var s := Run(Init(body), schedule); s.live && !s.slot.done && s.pump.Awaiting?
    ensures var s := Run(Init(body), schedule);
            var t := Run(Step(s, BodyError), rest);
            && t.live && t.slot.done
            && (t.delivered != msgs <==> Payload(s.body) != [] || Payload(body) != EncodeAll(msgs))
  {
    var s := Run(Init(body), schedule);
    var total := Drain(Payload(body)).msgs;
    Reachable(msgs, body, schedule);
    StepKeepsInv(s, BodyError, total);
    StepKeepsAccount(s, BodyError, total, Payload(body), msgs);
    var failed := Step(s, BodyError);
    rest := CanAlwaysFinish(failed, total);
    RunKeepsAccount(failed, rest, total, Payload(body), msgs);
    FinishedKeepsBody(failed, rest);
    DoneStateIsExact(Run(failed, rest), total, msgs, Payload(body));
  }

  // ---- The pump as the program writes it -------------------------------------------------

  lemma {:induction false} FeedAllSnoc(d: Drained, chunks: seq<seq<byte>>, c: seq<byte>)
    ensures FeedAll(d, chunks + [c]) == Feed(FeedAll(d, chunks), c)
    decreases |chunks|
  {
    if chunks == [] {
      assert [] + [c] == [c] && [c][1..] == [];
      assert FeedAll(Feed(d, c), []) == Feed(d, c);
    } else {
      assert (chunks + [c])[0] == chunks[0] && (chunks + [c])[1..] == chunks[1..] + [c];
      FeedAllSnoc(Feed(d, chunks[0]), chunks[1..], c);
    }
  }

  lemma {:induction false} ChunksSnoc(body: seq<BodyItem>, i: nat)
    requires i < |body|
    ensures Chunks(body[..i + 1]) == if body[i].Data? then Chunks(body[..i]) + [body[i].bytes] else Chunks(body[..i])
  {
    if i == 0 {
      assert body[..1][1..] == [] && body[..0] == [];
    } else {
      assert body[..i + 1][1..] == body[1..][..i] && body[..i][1..] == body[1..][..i - 1];
      ChunksSnoc(body[1..], i - 1);
    }
  }

  /** While a send waits for room the host may take messages off the front of the channel, or the call
      may end and its receiver be dropped. */
  method AwaitRoom(link: CallLink)
    requires link.inbound.cap > 0
    modifies link`inbound
    ensures link.inbound.cap == old(link.inbound.cap) && link.inbound.senderOpen == old(link.inbound.senderOpen)
    ensures link.inbound.receiverOpen ==> old(link.inbound.receiverOpen) && |link.inbound.queue| < link.inbound.cap
    ensures link.inbound.receiverOpen ==>
              exists k | 0 <= k <= |old(link.inbound.queue)| :: link.inbound.queue == old(link.inbound.queue)[k..]
  {
    var chan := link.inbound;
    if chan.receiverOpen {
      var k := if |chan.queue| < chan.cap then 0 else |chan.queue| - chan.cap + 1;
      link.inbound := chan.(queue := chan.queue[k..]);
      assert link.inbound.queue == old(link.inbound.queue)[k..];
    }
  }

  /** The inner loop: decode and send until nothing complete is left, or the receiver is gone. */
  method ForwardDecoded(buf: FrameBuffer, link: CallLink) returns (sent: seq<Message>, hungUp: bool)
    requires link.inbound.cap > 0
    modifies buf, link`inbound
    ensures link.inbound.cap == old(link.inbound.cap)
    ensures sent <= Drain(old(buf.bytes)).msgs
    ensures !hungUp ==> Drained(sent, buf.bytes) == Drain(old(buf.bytes))
    ensures hungUp ==> !link.inbound.receiverOpen && !link.inbound.senderOpen
  {
    sent, hungUp := [], false;
    ghost var whole := Drain(buf.bytes);
    DrainRound([], buf.bytes);
    NilLeft(whole.msgs);
    var next := buf.TryDecodeOne();
    while next.Some?
      invariant link.inbound.cap == old(link.inbound.cap)
      invariant match next
                case Some(m) => whole == Drained(sent + [m] + Drain(buf.bytes).msgs, Drain(buf.bytes).residue)
                case None => whole == Drained(sent, buf.bytes)
      decreases next.Some?, |buf.bytes|
    {
      AwaitRoom(link);
      var result := link.TrySendInbound(next.value);
      if result != Sent {
        link.inbound := link.inbound.DropSender();
        hungUp := true;
        return;
      }
      sent := sent + [next.value];
      DrainRound(sent, buf.bytes);
      next := buf.TryDecodeOne();
    }
  }

  /** For any body at all, the pump forwards the messages that feeding its chunks one by one decodes,
      in order, and all of them unless the receiver went away. */
  method PumpInbound(body: seq<BodyItem>, link: CallLink) returns (forwarded: seq<Message>, hungUp: bool)
    requires link.inbound.cap > 0
    modifies link`inbound
    ensures forwarded <= FeedAll(EMPTY, Chunks(body)).msgs
    ensures !hungUp ==> forwarded == FeedAll(EMPTY, Chunks(body)).msgs
    ensures hungUp ==> !link.inbound.receiverOpen
    ensures !link.inbound.senderOpen
  {
    var buf := new FrameBuffer();
    forwarded, hungUp := [], false;
    for i := 0 to |body|
      invariant link.inbound.cap == old(link.inbound.cap) && fresh(buf)
      invariant FeedAll(EMPTY, Chunks(body[..i])) == Drained(forwarded, buf.bytes)
    {
      ChunksSnoc(body, i);
      if body[i].Data? {
        FeedAllSnoc(EMPTY, Chunks(body[..i]), body[i].bytes);
        PumpPrefix(body, i + 1);
        buf.bytes := buf.bytes + body[i].bytes;
        var sent, stop := ForwardDecoded(buf, link);
        forwarded := forwarded + sent;
        if stop {
          hungUp := true;
          assert forwarded <= FeedAll(EMPTY, Chunks(body[..i + 1])).msgs;
          return;
        }
      }
    }
    assert body[..|body|] == body;
    link.inbound := link.inbound.DropSender();
  }

  /** What has been decoded from a prefix of the body is a prefix of what the whole body decodes to. */
  lemma {:induction false} PumpPrefix(body: seq<BodyItem>, i: nat)
    requires i <= |body|
    ensures FeedAll(EMPTY, Chunks(body[..i])).msgs <= FeedAll(EMPTY, Chunks(body)).msgs
    decreases |body| - i
  {
    if i == |body| {
      assert body[..i] == body;
    } else {
      PumpPrefix(body, i + 1);
      ChunksSnoc(body, i);
      if body[i].Data? {
        FeedAllSnoc(EMPTY, Chunks(body[..i]), body[i].bytes);
      }
    }
  }
}
