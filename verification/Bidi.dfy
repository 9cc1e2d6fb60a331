/** The sending half of a bidirectional call: host sends, a bounded channel, and the request stream the server reads. */
module Bidi {
  import opened Bytes
  import opened Ffi
  import opened Channels

  const SEND_FULL := 0
  const SEND_QUEUED := 1
  const DEFAULT_WINDOW := 8

  /** `tx`: the host still has the sending half. */
  datatype State = State(
    tx: bool,
    chan: Chan<Message>,
    accepted: seq<Message>,   // history: sends answered QUEUED
    seen: seq<Message>,       // history: messages the request stream yielded
    ended: bool               // history: the request stream reported its end
  )

  datatype Label = Send(m: Message) | CloseSend | PollNext | HangUp

  function Open(window: nat): State {
    State(true, NewChan(if window == 0 then DEFAULT_WINDOW else window), [], [], false)
  }

  function SendMessage(s: State, m: Message): (State, int) {
    if !s.tx then (s, ZPR_ERR)
    else
      var (chan', r) := s.chan.Offer(m);
      match r
      case Sent => (s.(chan := chan', accepted := s.accepted + [m]), SEND_QUEUED)
      case Full => (s, SEND_FULL)
      case Closed => (s, ZPR_ERR)
  }

  function Step(s: State, l: Label): State {
    match l
    case Send(m) => SendMessage(s, m).0
    case CloseSend => s.(tx := false, chan := s.chan.DropSender())
    case PollNext =>
      if !s.chan.receiverOpen then s
      else
        var (chan', r) := s.chan.Take();
        (match r
         case Got(m) => s.(chan := chan', seen := s.seen + [m])
         case Empty => s
         case Disconnected => s.(ended := true))
    case HangUp => s.(chan := s.chan.DropReceiver())
  }

  function Run(s: State, schedule: seq<Label>): State
    decreases |schedule|
  {
    if schedule == [] then s else Run(Step(s, schedule[0]), schedule[1..])
  }

  ghost predicate Inv(s: State, window: nat) {
    && (s.tx <==> s.chan.senderOpen)
    && |s.chan.queue| <= s.chan.cap == window
    && (if s.chan.receiverOpen then s.seen + s.chan.queue == s.accepted else s.seen <= s.accepted)
    && (s.ended ==> !s.tx && s.seen == s.accepted)
  }

  lemma StepKeepsInv(s: State, l: Label, window: nat)
    requires Inv(s, window)
    ensures Inv(Step(s, l), window)
  {
    if l.Send? && s.chan.receiverOpen {
      assert s.seen + (s.chan.queue + [l.m]) == s.accepted + [l.m];
    }
  }

  lemma {:induction false} RunKeepsInv(s: State, schedule: seq<Label>, window: nat)
    requires Inv(s, window)
    ensures Inv(Run(s, schedule), window)
    decreases |schedule|
  {
    if schedule != [] {
      StepKeepsInv(s, schedule[0], window);
      RunKeepsInv(Step(s, schedule[0]), schedule[1..], window);
    }
  }

  /** The server is given exactly the accepted sends, in order, and sees the end only after the half was closed
      and every accepted send was read; at most a window of them is ever outstanding. */
  lemma SendsArriveInOrder(window: nat, schedule: seq<Label>)
    ensures var s := Run(Open(window), schedule);
            && s.seen <= s.accepted
            && (s.chan.receiverOpen ==> |s.accepted| - |s.seen| <= if window == 0 then DEFAULT_WINDOW else window)
            && (s.ended ==> !s.tx && s.seen == s.accepted)
  {
    RunKeepsInv(Open(window), schedule, Open(window).chan.cap);
  }

  /** Exactly what a send answers. With the half open and the server there, the message is queued (1) if fewer than a
      window are outstanding, and the caller told to retry (0) if a full window is; otherwise it fails (-1). Only a
      queued message changes anything. */
  lemma SendOutcome(window: nat, schedule: seq<Label>, m: Message)
    ensures var s := Run(Open(window), schedule);
            var (t, code) := SendMessage(s, m);
            var outstanding := |s.accepted| - |s.seen|;
            var limit := if window == 0 then 8 else window;
            && t == Step(s, Send(m))
            && (code == 1 <==> s.tx && s.chan.receiverOpen && outstanding < limit)
            && (code == 0 <==> s.tx && s.chan.receiverOpen && outstanding == limit)
            && (code == -1 <==> !s.tx || !s.chan.receiverOpen)
            && (if code == 1 then t.accepted == s.accepted + [m] && t.chan.queue == s.chan.queue + [m] else t == s)
  {
    RunKeepsInv(Open(window), schedule, Open(window).chan.cap);
  }

  /** Once the server has hung up, no send is accepted and nothing more is seen. */
  lemma {:induction false} HungUpForGood(s: State, schedule: seq<Label>, m: Message)
    ensures var t := Run(Step(s, HangUp), schedule);
            t.seen == s.seen && t.accepted == s.accepted && SendMessage(t, m) == (t, -1)
    decreases |schedule|
  {
    if schedule != [] {
      var u := Step(s, HangUp);
      assert Step(Step(u, schedule[0]), HangUp) == Step(u, schedule[0]);
      HungUpForGood(Step(u, schedule[0]), schedule[1..], m);
    }
  }

  /** Half-close lets the server see the end: once the half is closed and the server still reads, its next polls give it
      everything accepted, and then the end. */
  lemma {:induction false} ClosedStreamEnds(s: State, window: nat) returns (polls: seq<Label>)
    requires Inv(s, window) && !s.tx && s.chan.receiverOpen
    ensures forall l | l in polls :: l == PollNext
    ensures Run(s, polls).seen == s.accepted && Run(s, polls).ended
    decreases |s.chan.queue|
  {
    var t := Step(s, PollNext);
    StepKeepsInv(s, PollNext, window);
    var rest := [];
    if s.chan.queue != [] {
      rest := ClosedStreamEnds(t, window);
    }
    polls := [PollNext] + rest;
    assert polls[1..] == rest;
  }

  lemma CloseSendReachesServer(window: nat, schedule: seq<Label>) returns (polls: seq<Label>)
    requires Run(Open(window), schedule).chan.receiverOpen
    ensures var s := Run(Open(window), schedule);
            var t := Run(Step(s, CloseSend), polls);
            t.ended && t.seen == s.accepted && forall l | l in polls :: l == PollNext
  {
    var s := Run(Open(window), schedule);
    RunKeepsInv(Open(window), schedule, Open(window).chan.cap);
    StepKeepsInv(s, CloseSend, Open(window).chan.cap);
    polls := ClosedStreamEnds(Step(s, CloseSend), Open(window).chan.cap);
  }

  /** Half-close is final: no later send is accepted, while those already accepted still arrive. */
  lemma {:induction false} ClosedHalfStaysClosed(s: State, schedule: seq<Label>, m: Message)
    requires !s.tx
    ensures var t := Run(s, schedule); !t.tx && t.accepted == s.accepted && SendMessage(t, m) == (t, ZPR_ERR)
    decreases |schedule|
  {
    if schedule != [] {
      ClosedHalfStaysClosed(Step(s, schedule[0]), schedule[1..], m);
    }
  }

  class GrpcBidiStream {
    var tx: bool
    var chan: Chan<Message>

    constructor (window: nat)
      ensures tx == Open(window).tx && chan == Open(window).chan
    {
      tx, chan := true, NewChan(if window == 0 then DEFAULT_WINDOW else window);
    }

    method Send(m: Message) returns (rc: int)
      modifies this`chan
      ensures var (s, code) := SendMessage(State(tx, old(chan), [], [], false), m); chan == s.chan && rc == code
      ensures rc == 1 <==> tx && old(chan).receiverOpen && |old(chan).queue| < old(chan).cap
      ensures rc == 0 <==> tx && old(chan).receiverOpen && |old(chan).queue| >= old(chan).cap
      ensures rc == -1 <==> !tx || !old(chan).receiverOpen
      ensures chan == if rc == 1 then old(chan).(queue := old(chan).queue + [m]) else old(chan)
    {
      if !tx {
        return ZPR_ERR;
      }
      var (chan', r) := chan.Offer(m);
      chan := chan';
      rc := match r case Sent => SEND_QUEUED case Full => SEND_FULL case Closed => ZPR_ERR;
    }

    /** Dropping the sender is what the server sees as the end of the stream. */
    method CloseSend()
      modifies this
      ensures !tx && chan == old(chan).DropSender()
    {
      tx, chan := false, chan.DropSender();
    }
  }
}
