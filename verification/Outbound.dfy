/** The outbound half of one RPC: host writes, bounded channel, `OutboundBody`, and the party that answers. */
module Outbound {
  import opened Bytes
  import opened Frames
  import opened Channels
  import opened Trailers

  const OUTBOUND_CAPACITY := 8

  datatype Phase = Streaming | AwaitingStatus | Done

  datatype OutFrame = DataFrame(bytes: seq<byte>) | TrailersFrame(trailers: TrailerMap)

  datatype Polled = Pending | Item(frame: OutFrame) | EndOfBody

  datatype Body = Body(rx: Chan<Message>, status: Reply, phase: Phase)

  /** The status used when the status sender vanished without sending. */
  const NO_STATUS := Status(13, AsciiBytes("handler ended without a status"))

  function Rank(p: Phase): nat {
    match p case Streaming => 2 case AwaitingStatus => 1 case Done => 0
  }

  datatype Progress = Again | Return(result: Polled)

  /** One round of the poll loop. */
  function PollRound(b: Body): (r: (Body, Progress))
    ensures r.1.Again? ==> Rank(r.0.phase) < Rank(b.phase)
  {
    match b.phase
    case Streaming =>
      var (rx', got) := b.rx.Take();
      (match got
       case Got(m) => (b.(rx := rx'), Return(Item(DataFrame(Encode(m)))))
       case Disconnected => (b.(phase := AwaitingStatus), Again)
       case Empty => (b, Return(Pending)))
    case AwaitingStatus =>
      (match PollReply(b.status)
       case Ready(st) =>
         (b.(phase := Done, status := b.status.(spent := true)),
          Return(Item(TrailersFrame(TrailersOf(if st.Some? then st.value else NO_STATUS)))))
       case StillPending => (b, Return(Pending)))
    case Done => (b, Return(EndOfBody))
  }

  function PollFrame(b: Body): (Body, Polled)
    decreases Rank(b.phase)
  {
    var (b', p) := PollRound(b);
    match p
    case Again => PollFrame(b')
    case Return(r) => (b', r)
  }

  /** Streaming is over for this poll: every write was taken and no more can come. */
  predicate AtStatus(b: Body) {
    b.phase.AwaitingStatus? || (b.phase.Streaming? && b.rx.queue == [] && !b.rx.senderOpen)
  }

  /** The answer of a poll and what it leaves behind, from what the channels hold when it begins. */
  ghost predicate PollAnswers(b: Body, b': Body, r: Polled) {
    && (r.EndOfBody? <==> b.phase.Done?)
    && (r.Pending? <==>
          || (b.phase.Streaming? && b.rx.queue == [] && b.rx.senderOpen)
          || (AtStatus(b) && b.status.slot == None && b.status.senderOpen))
    && (b.phase.Streaming? && b.rx.queue != [] ==>
          && r == Item(DataFrame(Encode(b.rx.queue[0])))
          && b' == b.(rx := b.rx.(queue := b.rx.queue[1..])))
    && (AtStatus(b) && (b.status.slot.Some? || !b.status.senderOpen) ==>
          && r == Item(TrailersFrame(TrailersOf(
               match b.status.slot
               case Some(st) => st
               case None => Status(13, AsciiBytes("handler ended without a status")))))
          && b' == b.(phase := Done, status := b.status.(spent := true)))
    && (r.Pending? ==> b' == b.(phase := if AtStatus(b) then AwaitingStatus else Streaming))
    && (r.EndOfBody? ==> b' == b)
  }

  lemma PollExact(b: Body)
    ensures PollAnswers(b, PollFrame(b).0, PollFrame(b).1)
  {
    if b.phase.Streaming? && b.rx.queue == [] && !b.rx.senderOpen {
      assert PollFrame(b) == PollFrame(b.(phase := AwaitingStatus));
    }
  }

  // ---- The protocol ----------------------------------------------------------------------

  /** How far the answering of the call has got: removed from the live map, status sent, channel ends dropped. */
  datatype Stage =
    | Live
    | Removed(party: Party, st: Status)
    | Answered(party: Party, st: Status)
    | Dropped(party: Party, st: Status)

  datatype State = State(
    body: Body,
    stage: Stage,
    bodyAlive: bool,            // false once the connection dropped the response body
    accepted: seq<Message>,     // history: writes answered with MESSAGE
    emitted: seq<OutFrame>      // history: frames handed to the connection
  )

  datatype Label =
    | Write(m: Message)
    | Remove(party: Party, st: Status) | SendStatus | DropCall
    | Poll
    | HangUp

  const INIT := State(Body(NewChan(OUTBOUND_CAPACITY), FRESH_REPLY, Streaming), Live, true, [], [])

  /** One atomic step; a step that is not possible changes nothing. A poll is taken one round at a time,
      so other parties may act between its rounds. */
  function Step(s: State, l: Label): State {
    match l
    case Write(m) =>
      if s.stage.Live? then
        var (rx', r) := s.body.rx.Offer(m);
        s.(body := s.body.(rx := rx'), accepted := if r == Sent then s.accepted + [m] else s.accepted)
      else s
    case Remove(party, st) => if s.stage.Live? then s.(stage := Removed(party, st)) else s
    case SendStatus =>
      if s.stage.Removed? && s.body.status.senderOpen then
        s.(stage := Answered(s.stage.party, s.stage.st), body := s.body.(status := s.body.status.Send(s.stage.st)))
      else s
    case DropCall =>
      if s.stage.Answered? then
        s.(stage := Dropped(s.stage.party, s.stage.st), body := s.body.(rx := s.body.rx.DropSender()))
      else s
    case Poll =>
      if s.bodyAlive then
        var (b', p) := PollRound(s.body);
        s.(body := b', emitted := s.emitted + (if p.Return? && p.result.Item? then [p.result.frame] else []))
      else s
    case HangUp =>
      s.(bodyAlive := false,
         body := s.body.(rx := s.body.rx.DropReceiver(), status := s.body.status.(receiverOpen := false)))
  }

  function Run(s: State, schedule: seq<Label>): State
    decreases |schedule|
  {
    if schedule == [] then s else Run(Step(s, schedule[0]), schedule[1..])
  }

  function DataFrames(ms: seq<Message>): seq<OutFrame> {
    seq(|ms|, i requires 0 <= i < |ms| => DataFrame(Encode(ms[i])))
  }

  /** What the connection has been given after `n` data frames. */
  function Expected(s: State, n: nat): seq<OutFrame>
    requires n <= |s.accepted|
  {
    DataFrames(s.accepted[..n]) +
    if s.body.phase.Done? && s.stage.Dropped? then [TrailersFrame(TrailersOf(s.stage.st))] else []
  }

  function DataCount(s: State): int {
    if s.body.phase.Done? then |s.emitted| - 1 else |s.emitted|
  }

  ghost predicate Inv(s: State) {
    && s.body.rx.cap == OUTBOUND_CAPACITY
    && (s.body.rx.senderOpen <==> !s.stage.Dropped?)
    && (s.body.status.senderOpen <==> s.stage.Live? || s.stage.Removed?)
    && (s.body.status.spent <==> s.body.phase.Done?)
    && (s.bodyAlive <==> s.body.rx.receiverOpen) && (s.bodyAlive <==> s.body.status.receiverOpen)
    && (s.bodyAlive ==> s.body.status.slot == if s.stage.Answered? || s.stage.Dropped? then Some(s.stage.st) else None)
    && (!s.body.phase.Streaming? ==> s.stage.Dropped? && s.body.rx.queue == [])
    && 0 <= DataCount(s) <= |s.accepted|
    && (!s.body.phase.Streaming? ==> DataCount(s) == |s.accepted|)
    && (s.bodyAlive ==> s.accepted[DataCount(s)..] == s.body.rx.queue)
    && s.emitted == Expected(s, DataCount(s))
  }

  lemma WriteKeepsInv(s: State, m: Message)
    requires Inv(s)
    ensures Inv(Step(s, Write(m)))
  {
    var t := Step(s, Write(m));
    var n := DataCount(s);
    if |t.accepted| > |s.accepted| {
      assert t.accepted[..n] == s.accepted[..n];
      assert t.accepted[n..] == s.accepted[n..] + [m];
    }
  }

  lemma PollKeepsInv(s: State)
    requires Inv(s) && s.bodyAlive
    ensures Inv(Step(s, Poll))
  {
    var t := Step(s, Poll);
    var n := DataCount(s);
    if s.body.phase.Streaming? && s.body.rx.queue != [] {
      assert s.accepted[n] == s.body.rx.queue[0];
      assert s.accepted[..n + 1] == s.accepted[..n] + [s.accepted[n]];
      assert DataFrames(s.accepted[..n + 1]) == DataFrames(s.accepted[..n]) + [DataFrame(Encode(s.accepted[n]))];
      assert t.accepted[n + 1..] == t.body.rx.queue;
    }
  }

  lemma StepKeepsInv(s: State, l: Label)
    requires Inv(s)
    ensures Inv(Step(s, l))
  {
    if Step(s, l) != s {
      match l
      case Write(m) => WriteKeepsInv(s, m);
      case Poll => PollKeepsInv(s);
      case _ =>
    }
  }

  lemma {:induction false} RunKeepsInv(s: State, schedule: seq<Label>)
    requires Inv(s)
    ensures Inv(Run(s, schedule))
    decreases |schedule|
  {
    if schedule != [] {
      StepKeepsInv(s, schedule[0]);
      RunKeepsInv(Step(s, schedule[0]), schedule[1..]);
    }
  }

  lemma InitHoldsInv()
    ensures Inv(INIT)
  {
    assert DataFrames([]) == [];
  }

  /** Over every interleaving of writes, polls, answering and hang-up, the connection is given accepted
      writes as data frames in order; trailers come only after all of them, once, and carry the status
      of the party that removed the call. */
  lemma OutboundFidelity(schedule: seq<Label>)
    ensures var s := Run(INIT, schedule);
            if s.body.phase.Done? then
              && s.stage.Dropped?
              && s.emitted == DataFrames(s.accepted) + [TrailersFrame(TrailersOf(s.stage.st))]
            else
              && |s.emitted| <= |s.accepted|
              && s.emitted == DataFrames(s.accepted[..|s.emitted|])
  {
    InitHoldsInv();
    RunKeepsInv(INIT, schedule);
    var s := Run(INIT, schedule);
    assert s.accepted[..|s.accepted|] == s.accepted;
  }

  /** Which party answers, and with what, is settled once: the first removal is the only one. */
  lemma {:induction false} AnswerIsFinal(s: State, schedule: seq<Label>)
    requires !s.stage.Live?
    ensures var t := Run(s, schedule);
            !t.stage.Live? && t.stage.party == s.stage.party && t.stage.st == s.stage.st && t.accepted == s.accepted
    decreases |schedule|
  {
    if schedule != [] {
      AnswerIsFinal(Step(s, schedule[0]), schedule[1..]);
    }
  }

  /** After the trailers nothing more is ever emitted. */
  lemma {:induction false} SilentAfterTrailers(s: State, schedule: seq<Label>)
    requires s.body.phase.Done?
    ensures Run(s, schedule).emitted == s.emitted && Run(s, schedule).body.phase.Done?
    ensures PollFrame(Run(s, schedule).body).1 == EndOfBody
    decreases |schedule|
  {
    if schedule != [] {
      SilentAfterTrailers(Step(s, schedule[0]), schedule[1..]);
    }
  }

  /** The end of the body is answered exactly once the trailers have been handed over. */
  lemma EndOnlyAfterTrailers(schedule: seq<Label>)
    ensures var s := Run(INIT, schedule);
            PollFrame(s.body).1.EndOfBody? <==> exists f :: f in s.emitted && f.TrailersFrame?
  {
    InitHoldsInv();
    RunKeepsInv(INIT, schedule);
    var s := Run(INIT, schedule);
    PollExact(s.body);
    if s.body.phase.Done? {
      assert s.emitted[|s.emitted| - 1].TrailersFrame?;
    }
  }

  /** A write is taken exactly while the call is live, its client is there and fewer than 8 writes are waiting, and then
      it is the last in line; otherwise nothing changes. */
  lemma WriteAcceptedIff(schedule: seq<Label>, m: Message)
    ensures var s := Run(INIT, schedule);
            var t := Step(s, Write(m));
            if s.stage.Live? && s.bodyAlive && |s.body.rx.queue| < 8 then
              t.accepted == s.accepted + [m] && t.body.rx.queue == s.body.rx.queue + [m]
            else t == s
  {
    InitHoldsInv();
    RunKeepsInv(INIT, schedule);
  }

  /** The status receiver is polled only while it has not been ready. */
  lemma StatusNeverPolledTwice(schedule: seq<Label>)
    ensures var b := Run(INIT, schedule).body; b.phase.AwaitingStatus? ==> !b.status.spent
  {
    InitHoldsInv();
    RunKeepsInv(INIT, schedule);
  }

  function DataBytes(frames: seq<OutFrame>): seq<byte> {
    if frames == [] then []
    else (if frames[0].DataFrame? then frames[0].bytes else []) + DataBytes(frames[1..])
  }

  lemma {:induction false} DataBytesOfFrames(ms: seq<Message>, tail: seq<OutFrame>)
    requires DataBytes(tail) == []
    ensures DataBytes(DataFrames(ms) + tail) == EncodeAll(ms)
  {
    var fs := DataFrames(ms) + tail;
    if ms == [] {
      assert fs == tail;
    } else {
      assert fs[1..] == DataFrames(ms[1..]) + tail;
      DataBytesOfFrames(ms[1..], tail);
    }
  }

  /** The frames after the data frames carry no data. */
  lemma ExpectedBytes(s: State, n: nat)
    requires n <= |s.accepted|
    ensures DataBytes(Expected(s, n)) == EncodeAll(s.accepted[..n])
  {
    var tail := if s.body.phase.Done? && s.stage.Dropped? then [TrailersFrame(TrailersOf(s.stage.st))] else [];
    assert tail == [] || tail[1..] == [];
    DataBytesOfFrames(s.accepted[..n], tail);
  }

  /** What a client decodes from the response data is exactly the writes emitted so far, with no bytes left
      over; once the trailers are out it is every accepted write. */
  lemma ClientDecodesTheWrites(schedule: seq<Label>)
    requires AllFit(Run(INIT, schedule).accepted)
    ensures var s := Run(INIT, schedule);
            var d := Drain(DataBytes(s.emitted));
            && d.msgs <= s.accepted && d.residue == []
            && (s.body.phase.Done? ==> d.msgs == s.accepted)
  {
    InitHoldsInv();
    RunKeepsInv(INIT, schedule);
    var s := Run(INIT, schedule);
    var n := DataCount(s);
    ExpectedBytes(s, n);
    DrainOfEncoded(s.accepted[..n], []);
    assert EncodeAll(s.accepted[..n]) + [] == EncodeAll(s.accepted[..n]);
    assert s.accepted[..|s.accepted|] == s.accepted;
  }

  /** Once someone has removed the call, the response can always be driven to its trailers, with nothing missing. */
  lemma {:induction false} AnsweredCallFinishes(s: State) returns (schedule: seq<Label>)
    requires Inv(s) && s.bodyAlive && !s.stage.Live?
    ensures Run(s, schedule).emitted == DataFrames(s.accepted) + [TrailersFrame(TrailersOf(s.stage.st))]
    decreases if s.stage.Removed? then 2 else if s.stage.Answered? then 1 else 0, Rank(s.body.phase), |s.body.rx.queue|
  {
    if s.body.phase.Done? {
      schedule := [];
      assert s.accepted[..|s.accepted|] == s.accepted;
    } else {
      var l := match s.stage case Removed(_, _) => SendStatus case Answered(_, _) => DropCall case _ => Poll;
      StepKeepsInv(s, l);
      var rest := AnsweredCallFinishes(Step(s, l));
      schedule := [l] + rest;
      assert schedule[1..] == rest;
    }
  }

  // ---- The body as the program writes it -------------------------------------------------

  class OutboundBody {
    const link: CallLink
    var phase: Phase

    ghost function View(): Body
      reads this, link
    {
      Body(link.outbound, link.status, phase)
    }

    ghost predicate Valid()
      reads this, link
    {
      link.status.spent <==> phase.Done?
    }

    constructor (link: CallLink)
      requires !link.status.spent
      ensures Valid() && this.link == link && phase == Streaming
    {
      this.link, phase := link, Streaming;
    }

    method Poll() returns (r: Polled)
      requires Valid()
      modifies this, link`outbound, link`status
      ensures Valid()
      ensures (View(), r) == PollFrame(old(View()))
      ensures r.EndOfBody? <==> old(phase).Done?
      ensures r.Pending? <==>
                || (old(phase).Streaming? && old(link.outbound).queue == [] && old(link.outbound).senderOpen)
                || (AtStatus(old(View())) && old(link.status).slot == None && old(link.status).senderOpen)
      ensures old(phase).Streaming? && old(link.outbound).queue != [] ==>
                r == Item(DataFrame(Encode(old(link.outbound).queue[0])))
    {
      PollExact(View());
      while true
        invariant Valid()
        invariant PollFrame(View()) == PollFrame(old(View()))
        decreases Rank(phase)
      {
        match phase {
          case Streaming =>
            var got := link.TryRecvOutbound();
            match got {
              case Got(m) => return Item(DataFrame(Encode(m)));
              case Disconnected => phase := AwaitingStatus;
              case Empty => return Pending;
            }
          case AwaitingStatus =>
            var ready := link.PollStatus();
            if ready.StillPending? {
              return Pending;
            }
            var st := if ready.status.Some? then ready.status.value else NO_STATUS;
            phase := Done;
            return Item(TrailersFrame(TrailersOf(st)));
          case Done => return EndOfBody;
        }
      }
    }
  }

  /** A whole poll is one of the schedules above: at most two rounds, and it emits exactly what it returns. */
  lemma PollIsARun(s: State) returns (schedule: seq<Label>)
    requires s.bodyAlive
    ensures |schedule| <= 2 && forall l | l in schedule :: l == Poll
    ensures var t := Run(s, schedule);
            t == s.(body := PollFrame(s.body).0, emitted := t.emitted) &&
            t.emitted == s.emitted + if PollFrame(s.body).1.Item? then [PollFrame(s.body).1.frame] else []
  {
    var t := Step(s, Poll);
    var one, two := [Poll], [Poll, Poll];
    assert one[1..] == [] && two[1..] == one;
    assert Run(s, one) == Run(t, []) == t;
    assert Run(s, two) == Run(t, one) == Run(Step(t, Poll), []);
    schedule := if PollRound(s.body).1.Again? then two else one;
    assert t.emitted == s.emitted || PollRound(s.body).1.Return?;
  }
}
