/** The client's stream reader: one held message shared by two read calls, over the wire itself or over a
    lossy ring filled by a pump, with a one-way switch from the first to the second. */
module ClientStream {
  import opened Bytes
  import opened Ffi

  const READ_NOTHING := 0
  const READ_MESSAGE := 1

  /** What a pull off the wire yields. */
  datatype WireItem = Msg(m: Message) | End | Failure

  /** The bounded queue between the pump and the host. */
  datatype RingState = RingState(q: seq<Message>, cap: nat, dropped: nat, done: bool, failed: bool) {
    /** The pump's handling of one wire item: when full, the oldest message makes room for the newest. */
    function Pump(item: WireItem): RingState {
      match item
      case Msg(m) =>
        if |q| >= cap then this.(q := (if q == [] then [] else q[1..]) + [m], dropped := dropped + 1)
        else this.(q := q + [m])
      case End => this.(done := true)
      case Failure => this.(done := true, failed := true)
    }
  }

  /** `ring` is absent while the stream is read straight off the wire. */
  datatype Reader = Reader(ring: Option<RingState>, held: Option<Message>)

  /** `took`: a message was taken off the wire by this call. */
  datatype Next = Next(code: int, msg: Option<Message>, reader: Reader, took: bool)

  /** The message next in line: the held one, else the wire's or the ring's. `wire` is what a blocking pull
      returns; it is looked at only when nothing is held and the stream is not buffered. */
  function NextMessage(r: Reader, wire: WireItem): Next {
    if r.held.Some? then Next(READ_MESSAGE, r.held, r.(held := None), false)
    else if r.ring.None? then
      match wire
      case Msg(m) => Next(READ_MESSAGE, Some(m), r, true)
      case End => Next(READ_NOTHING, None, r, false)
      case Failure => Next(ZPR_ERR, None, r, false)
    else
      var g := r.ring.value;
      if g.q != [] then Next(READ_MESSAGE, Some(g.q[0]), r.(ring := Some(g.(q := g.q[1..]))), false)
      else Next(if g.failed then ZPR_ERR else READ_NOTHING, None, r, false)
  }

  /** Handing the next message to a caller-owned buffer: one that does not fit is held. */
  function IntoBuffer(n: Next, dest: Dest): Next {
    if n.msg.None? || CopyCode(|n.msg.value|, dest) == ZPR_OK then n
    else n.(code := CopyCode(|n.msg.value|, dest), msg := None, reader := n.reader.(held := n.msg))
  }

  function StartBuffering(r: Reader, cap: nat): (Reader, int) {
    if cap == 0 || r.ring.Some? then (r, ZPR_ERR)
    else (r.(ring := Some(RingState([], cap, 0, false, false))), ZPR_OK)
  }

  // ---- The protocol: host calls and the pump interleaved ---------------------------------

  /** The stream's messages, in the order the server sent them, and whether it ends in a failure. */
  datatype Wire = Wire(msgs: seq<Message>, fails: bool) {
    function At(pos: nat): WireItem {
      if pos < |msgs| then Msg(msgs[pos]) else if fails then Failure else End
    }
  }

  datatype State = State(
    reader: Reader,
    pos: nat,               // messages taken off the wire so far, by pulls or by the pump
    pumpAlive: bool,
    switchAt: nat,          // messages already taken when buffering began
    heldAt: nat,            // history: wire position of the held message, when there is one
    out: seq<nat>,          // history: wire positions handed to the host
    got: seq<Message>       // history: messages handed to the host
  )

  datatype Label = Read | ReadInto(dest: Dest) | Buffer(cap: nat) | Pump

  const INIT := State(Reader(None, None), 0, false, 0, 0, [], [])

  function Queue(s: State): seq<Message> {
    match s.reader.ring case None => [] case Some(g) => g.q
  }

  function Dropped(s: State): nat {
    match s.reader.ring case None => 0 case Some(g) => g.dropped
  }

  /** Wire position of the oldest message not yet taken out of the ring (or off the wire). */
  function Front(s: State): int {
    s.pos - |Queue(s)|
  }

  function AfterRead(s: State, n: Next): State {
    var p := if s.reader.held.Some? then s.heldAt else if Front(s) < 0 then 0 else Front(s);
    s.(reader := n.reader, pos := if n.took then s.pos + 1 else s.pos, heldAt := p,
       out := if n.msg.Some? then s.out + [p] else s.out, got := s.got + ToSeq(n.msg))
  }

  function Step(w: Wire, s: State, l: Label): State {
    match l
    case Read => AfterRead(s, NextMessage(s.reader, w.At(s.pos)))
    case ReadInto(dest) => AfterRead(s, IntoBuffer(NextMessage(s.reader, w.At(s.pos)), dest))
    case Buffer(cap) =>
      var (reader', rc) := StartBuffering(s.reader, cap);
      if rc == ZPR_OK then s.(reader := reader', pumpAlive := true, switchAt := s.pos) else s
    case Pump =>
      if s.pumpAlive && s.reader.ring.Some? then
        s.(reader := s.reader.(ring := Some(s.reader.ring.value.Pump(w.At(s.pos)))),
           pos := if w.At(s.pos).Msg? then s.pos + 1 else s.pos, pumpAlive := w.At(s.pos).Msg?)
      else s
  }

  function Run(w: Wire, s: State, schedule: seq<Label>): State
    decreases |schedule|
  {
    if schedule == [] then s else Run(w, Step(w, s, schedule[0]), schedule[1..])
  }

  /** The part of the wire that was not read through the ring, where nothing may be lost. */
  function Direct(s: State): nat {
    if s.reader.ring.Some? then s.switchAt else s.pos
  }

  ghost predicate Increasing(out: seq<nat>, bound: int) {
    && (forall i, j :: 0 <= i < j < |out| ==> out[i] < out[j])
    && (forall i | 0 <= i < |out| :: out[i] < bound)
  }

  /** `q` is the last stretch of what has been taken off the wire. */
  ghost predicate Window(msgs: seq<Message>, pos: nat, q: seq<Message>) {
    |q| <= pos <= |msgs| && q == msgs[pos - |q|..pos]
  }

  /** Messages were handed over in wire order, each from its own position, all before `bound`. */
  ghost predicate Log(msgs: seq<Message>, out: seq<nat>, got: seq<Message>, bound: int) {
    && bound <= |msgs| && |got| == |out| && Increasing(out, bound)
    && forall i | 0 <= i < |out| :: got[i] == msgs[out[i]]
  }

  ghost predicate Dense(out: seq<nat>, n: nat) {
    forall k | 0 <= k < |out| && k < n :: out[k] == k
  }

  lemma LogAppend(msgs: seq<Message>, out: seq<nat>, got: seq<Message>, bound: int, p: nat, bound': int)
    requires Log(msgs, out, got, bound) && bound <= p < bound' <= |msgs|
    ensures Log(msgs, out + [p], got + [msgs[p]], bound')
  {
  }

  lemma LogWiden(msgs: seq<Message>, out: seq<nat>, got: seq<Message>, bound: int, bound': int)
    requires Log(msgs, out, got, bound) && bound <= bound' <= |msgs|
    ensures Log(msgs, out, got, bound')
  {
  }

  function HeldCount(s: State): nat {
    if s.reader.held.Some? then 1 else 0
  }

  /** Where the next message in line for the host comes from: everything handed over is older. */
  function Turn(s: State): int {
    if s.reader.held.Some? then s.heldAt else Front(s)
  }

  /** Where the messages taken off the wire and not yet handed over are. */
  ghost predicate Stored(w: Wire, s: State) {
    && Window(w.msgs, s.pos, Queue(s))
    && (s.reader.ring.Some? ==>
          s.switchAt <= Front(s) && |Queue(s)| <= s.reader.ring.value.cap && s.reader.ring.value.cap > 0)
    && (s.reader.held.Some? ==> s.heldAt < Front(s) && s.reader.held.value == w.msgs[s.heldAt])
    && s.pos == |s.out| + HeldCount(s) + |Queue(s)| + Dropped(s)
  }

  /** Nothing taken before the switch was skipped: the first `direct` entries are in place, or the last is held. */
  ghost predicate Complete(s: State) {
    && Dense(s.out, Direct(s))
    && (|s.out| < Direct(s) ==> s.reader.held.Some? && s.heldAt == |s.out| == Direct(s) - 1)
  }

  ghost predicate Inv(w: Wire, s: State) {
    Stored(w, s) && Log(w.msgs, s.out, s.got, Turn(s)) && Complete(s)
  }

  /** The message next in line has left the ring or the wire, and nothing else moved. */
  ghost predicate Taken(w: Wire, s: State, t: State) {
    && 0 <= Turn(s) < |w.msgs| && t.heldAt == Turn(s)
    && t.reader.ring.Some? == s.reader.ring.Some? && t.switchAt == s.switchAt && Dropped(t) == Dropped(s)
    && (s.reader.ring.Some? ==> t.reader.ring.value.cap == s.reader.ring.value.cap)
    && if s.reader.held.Some? then t.pos == s.pos && Queue(t) == Queue(s)
       else if s.reader.ring.Some? then t.pos == s.pos && Queue(s) != [] && Queue(t) == Queue(s)[1..]
       else t.pos == s.pos + 1 <= |w.msgs|
  }

  lemma DeliverKeepsStored(w: Wire, s: State, t: State)
    requires Stored(w, s) && Taken(w, s, t)
    requires t.reader.held == None && |t.out| == |s.out| + 1
    ensures Stored(w, t) && Turn(s) < Turn(t) <= |w.msgs|
  {
  }

  lemma DeliverKeepsComplete(w: Wire, s: State, t: State)
    requires Inv(w, s) && Taken(w, s, t)
    requires t.reader.held == None && t.out == s.out + [Turn(s)]
    ensures Complete(t)
  {
    if s.reader.ring.None? {
      assert Turn(s) == |s.out|;
    }
  }

  lemma DeliverKeepsInv(w: Wire, s: State, t: State)
    requires Inv(w, s) && Taken(w, s, t)
    requires t.reader.held == None && t.out == s.out + [Turn(s)] && t.got == s.got + [w.msgs[Turn(s)]]
    ensures Inv(w, t)
  {
    DeliverKeepsStored(w, s, t);
    DeliverKeepsComplete(w, s, t);
    LogAppend(w.msgs, s.out, s.got, Turn(s), Turn(s), Turn(t));
  }

  lemma HoldKeepsInv(w: Wire, s: State, t: State)
    requires Inv(w, s) && Taken(w, s, t)
    requires t.reader.held == Some(w.msgs[Turn(s)]) && t.out == s.out && t.got == s.got
    ensures Inv(w, t)
  {
  }

  lemma NextComesFromTurn(w: Wire, s: State)
    requires Inv(w, s) && NextMessage(s.reader, w.At(s.pos)).msg.Some?
    ensures 0 <= Turn(s) < |w.msgs| && NextMessage(s.reader, w.At(s.pos)).msg == Some(w.msgs[Turn(s)])
  {
    if s.reader.held.None? && s.reader.ring.Some? {
      assert Queue(s)[0] == w.msgs[Front(s)];
    }
  }

  lemma ReadKeepsInv(w: Wire, s: State)
    requires Inv(w, s)
    ensures Inv(w, Step(w, s, Read))
  {
    var n := NextMessage(s.reader, w.At(s.pos));
    if n.msg.Some? {
      NextComesFromTurn(w, s);
      DeliverKeepsInv(w, s, AfterRead(s, n));
    }
  }

  lemma ReadIntoKeepsInv(w: Wire, s: State, dest: Dest)
    requires Inv(w, s)
    ensures Inv(w, Step(w, s, ReadInto(dest)))
  {
    var n := NextMessage(s.reader, w.At(s.pos));
    if n.msg.Some? {
      NextComesFromTurn(w, s);
      if CopyCode(|n.msg.value|, dest) == ZPR_OK {
        DeliverKeepsInv(w, s, AfterRead(s, n));
      } else {
        HoldKeepsInv(w, s, AfterRead(s, IntoBuffer(n, dest)));
      }
    } else {
      ReadKeepsInv(w, s);
    }
  }

  lemma WindowPush(msgs: seq<Message>, pos: nat, q: seq<Message>)
    requires Window(msgs, pos, q) && pos < |msgs|
    ensures Window(msgs, pos + 1, q + [msgs[pos]])
    ensures q != [] ==> Window(msgs, pos + 1, q[1..] + [msgs[pos]])
  {
  }

  lemma PumpMessageKeepsInv(w: Wire, s: State)
    requires Inv(w, s) && s.pumpAlive && s.reader.ring.Some? && s.pos < |w.msgs|
    ensures Inv(w, Step(w, s, Pump))
  {
    var t := Step(w, s, Pump);
    WindowPush(w.msgs, s.pos, Queue(s));
    assert t.pos == s.pos + 1 && Front(s) <= Front(t);
    LogWiden(w.msgs, s.out, s.got, Turn(s), Turn(t));
  }

  lemma PumpKeepsInv(w: Wire, s: State)
    requires Inv(w, s)
    ensures Inv(w, Step(w, s, Pump))
  {
    if s.pumpAlive && s.reader.ring.Some? && s.pos < |w.msgs| {
      PumpMessageKeepsInv(w, s);
    }
  }

  lemma StepKeepsInv(w: Wire, s: State, l: Label)
    requires Inv(w, s)
    ensures Inv(w, Step(w, s, l))
  {
    match l
    case Read => ReadKeepsInv(w, s);
    case ReadInto(dest) => ReadIntoKeepsInv(w, s, dest);
    case Buffer(cap) =>
    case Pump => PumpKeepsInv(w, s);
  }

  lemma {:induction false} RunKeepsInv(w: Wire, s: State, schedule: seq<Label>)
    requires Inv(w, s)
    ensures Inv(w, Run(w, s, schedule))
    decreases |schedule|
  {
    if schedule != [] {
      StepKeepsInv(w, s, schedule[0]);
      RunKeepsInv(w, Step(w, s, schedule[0]), schedule[1..]);
    }
  }

  // ---- One queue position ----------------------------------------------------------------

  lemma DirectReadsThePrefix(w: Wire, s: State)
    requires Inv(w, s) && s.reader.ring.None?
    ensures |s.got| <= s.pos && s.got == w.msgs[..|s.got|] && s.got + ToSeq(s.reader.held) == w.msgs[..s.pos]
  {
    assert Queue(s) == [] && Front(s) == s.pos;
    forall k | 0 <= k < |s.got| ensures s.got[k] == w.msgs[k] {
      assert s.out[k] == k;
    }
  }

  lemma PositionOf(w: Wire, s: State)
    requires Inv(w, s)
    ensures |s.got| <= s.pos <= |w.msgs|
    ensures s.reader.ring.None? ==>
              s.got == w.msgs[..|s.got|] && s.got + ToSeq(s.reader.held) == w.msgs[..s.pos]
    ensures s.reader.ring.Some? ==>
              && s.switchAt <= s.pos
              && (forall k | 0 <= k < |s.out| && k < s.switchAt :: s.out[k] == k)
              && (|s.out| < s.switchAt ==>
                    |s.out| == s.switchAt - 1 && s.reader.held == Some(w.msgs[s.switchAt - 1]))
  {
    if s.reader.ring.None? {
      DirectReadsThePrefix(w, s);
    }
  }

  /** For any mix of both read calls with any buffers, pump steps and buffer calls: until buffering begins the host has
      been handed exactly a prefix of the wire; everything taken before the switch, the held message included,
      reaches the host in order and before any message of the ring. */
  lemma OneQueuePosition(w: Wire, schedule: seq<Label>)
    ensures var s := Run(w, INIT, schedule);
            && |s.got| <= s.pos <= |w.msgs|
            && (s.reader.ring.None? ==> s.got == w.msgs[..|s.got|] && s.got + ToSeq(s.reader.held) == w.msgs[..s.pos])
            && (s.reader.ring.Some? ==>
                  && s.switchAt <= s.pos
                  && (forall k | 0 <= k < |s.out| && k < s.switchAt :: s.out[k] == k)
                  && (|s.out| < s.switchAt ==>
                        |s.out| == s.switchAt - 1 && s.reader.held == Some(w.msgs[s.switchAt - 1])))
  {
    RunKeepsInv(w, INIT, schedule);
    PositionOf(w, Run(w, INIT, schedule));
  }

  /** The switch is one-way: a later buffer call is refused and changes nothing, neither ring nor counters nor
      held message, and starts no second pump. The drop counter only grows. */
  lemma {:induction false} SwitchIsOneWay(w: Wire, s: State, schedule: seq<Label>, again: nat)
    requires s.reader.ring.Some?
    ensures var t := Run(w, s, schedule);
            && t.reader.ring.Some? && t.reader.ring.value.cap == s.reader.ring.value.cap && t.switchAt == s.switchAt
            && Dropped(s) <= Dropped(t)
            && StartBuffering(t.reader, again).1 == ZPR_ERR && Step(w, t, Buffer(again)) == t
    decreases |schedule|
  {
    if schedule != [] {
      SwitchIsOneWay(w, Step(w, s, schedule[0]), schedule[1..], again);
    }
  }

  // ---- What the end of a buffered stream looks like --------------------------------------

  /** The ring's flags tell how the pump stands: done once the wire has ended, failed if it ended in a failure. */
  ghost predicate Flagged(w: Wire, s: State) {
    match s.reader.ring
    case None => !s.pumpAlive
    case Some(g) =>
      && g.cap > 0 && (g.done <==> !s.pumpAlive) && (g.failed <==> g.done && w.fails)
      && s.pos <= |w.msgs| && (g.done ==> s.pos == |w.msgs|)
  }

  lemma StepKeepsFlagged(w: Wire, s: State, l: Label)
    requires Inv(w, s) && Flagged(w, s)
    ensures Flagged(w, Step(w, s, l))
  {
  }

  lemma {:induction false} RunKeepsFlagged(w: Wire, s: State, schedule: seq<Label>)
    requires Inv(w, s) && Flagged(w, s)
    ensures Flagged(w, Run(w, s, schedule))
    decreases |schedule|
  {
    if schedule != [] {
      StepKeepsInv(w, s, schedule[0]);
      StepKeepsFlagged(w, s, schedule[0]);
      RunKeepsFlagged(w, Step(w, s, schedule[0]), schedule[1..]);
    }
  }

  predicate Drained(s: State) {
    s.reader.ring.Some? && s.reader.held.None? && Queue(s) == []
  }

  /** Exactly when a buffered read answers 0: nothing is held or waiting, and the stream has not failed. That covers
      both a pump still at work and a stream that has ended cleanly. */
  lemma ZeroMeansEmptyOrFinished(w: Wire, schedule: seq<Label>)
    ensures var s := Run(w, INIT, schedule);
            s.reader.ring.Some? ==>
              && (NextMessage(s.reader, w.At(s.pos)).code == READ_NOTHING <==> Drained(s) && (s.pumpAlive || !w.fails))
              && (NextMessage(s.reader, w.At(s.pos)).code == ZPR_ERR <==> Drained(s) && !s.pumpAlive && w.fails)
              && (!s.pumpAlive ==> s.pos == |w.msgs|)
  {
    RunKeepsFlagged(w, INIT, schedule);
  }

  /** Exactly what an unbuffered read answers: 1 with the next message of the wire as long as there is one, held back or
      not; after the last one 0 if the stream ended cleanly, and -1 if it failed. */
  lemma PullReadOutcome(w: Wire, schedule: seq<Label>)
    ensures var s := Run(w, INIT, schedule);
            var n := NextMessage(s.reader, w.At(s.pos));
            s.reader.ring.None? ==>
              && (n.code == 0 <==> s.reader.held.None? && s.pos == |w.msgs| && !w.fails)
              && (n.code == -1 <==> s.reader.held.None? && s.pos == |w.msgs| && w.fails)
              && (n.code == 1 <==> |s.got| < |w.msgs|)
              && n.msg == (if |s.got| < |w.msgs| then Some(w.msgs[|s.got|]) else None)
  {
    RunKeepsInv(w, INIT, schedule);
    var s := Run(w, INIT, schedule);
    if s.reader.ring.None? {
      DirectReadsThePrefix(w, s);
      assert s.pos == |s.got| + HeldCount(s);
    }
  }

  /** Exactly what becomes of a next message that is read into a buffer: handed over if it fits, with 1; held otherwise,
      with -2 if it is longer than the buffer, and -1 if there is no buffer for its bytes. With no next message the
      answer is the allocating read's. */
  lemma IntoBufferOutcome(n: Next, dest: Dest)
    ensures var i := IntoBuffer(n, dest);
            match n.msg
            case None => i == n
            case Some(m) =>
              && i.took == n.took
              && (if |m| <= dest.cap && (dest.isNull ==> m == []) then i == n
                  else
                    && i.msg == None && i.reader == n.reader.(held := Some(m))
                    && i.code == if |m| > dest.cap then -2 else -1)
  {
  }

  /** Buffering begins, with an empty ring of the capacity asked for, exactly when that is not 0 and there is no ring
      yet; the held message stays. */
  lemma BufferOutcome(r: Reader, cap: nat)
    ensures var (t, rc) := StartBuffering(r, cap);
            && t.held == r.held
            && (if cap > 0 && r.ring.None? then rc == 0 && t.ring == Some(RingState([], cap, 0, false, false))
                else rc == -1 && t == r)
  {
  }

  /** An end is final: once the pump has stopped and the ring is drained, every later read gives the same answer, be it
      the clean end's 0 or the failure's error, and hands over nothing. */
  lemma {:induction false} EndIsSticky(w: Wire, s: State, schedule: seq<Label>)
    requires Drained(s) && !s.pumpAlive
    ensures var t := Run(w, s, schedule);
            && t.reader == s.reader && !t.pumpAlive && t.got == s.got
            && NextMessage(t.reader, w.At(t.pos)).code == if s.reader.ring.value.failed then ZPR_ERR else READ_NOTHING
    decreases |schedule|
  {
    if schedule != [] {
      EndIsSticky(w, Step(w, s, schedule[0]), schedule[1..]);
    }
  }

  lemma MoreComes(w: Wire, s: State)
    requires Flagged(w, s) && Drained(s) && s.pos < |w.msgs|
    ensures NextMessage(s.reader, w.At(s.pos)).code == READ_NOTHING
    ensures Run(w, s, [Pump, Read]).got == s.got + [w.msgs[s.pos]]
  {
    var s1 := Step(w, s, Pump);
    assert Queue(s1) == [w.msgs[s.pos]];
    assert [Pump, Read][1..] == [Read] && [Read][1..] == [];
    assert Run(w, s, [Pump, Read]) == Run(w, s1, [Read]) == Run(w, Step(w, s1, Read), []);
  }

  /** A 0 from a drained ring does not mean the end as long as the wire holds more: the next message can still come. */
  lemma ZeroIsNotTheEnd(w: Wire, schedule: seq<Label>)
    requires var s := Run(w, INIT, schedule); Drained(s) && s.pos < |w.msgs|
    ensures var s := Run(w, INIT, schedule);
            NextMessage(s.reader, w.At(s.pos)).code == READ_NOTHING &&
            Run(w, s, [Pump, Read]).got == s.got + [w.msgs[s.pos]]
  {
    RunKeepsFlagged(w, INIT, schedule);
    MoreComes(w, Run(w, INIT, schedule));
  }

  // ---- Conservation ----------------------------------------------------------------------

  function Below(lo: nat, hi: nat): (r: set<nat>)
    ensures forall p :: p in r <==> lo <= p < hi
    ensures |r| == if lo <= hi then hi - lo else 0
    decreases hi
  {
    if lo < hi then Below(lo, hi - 1) + {hi - 1} else {}
  }

  function Elements(out: seq<nat>): set<nat> {
    set p | p in out
  }

  lemma {:induction false} ElementsSize(out: seq<nat>, bound: int)
    requires Increasing(out, bound)
    ensures |Elements(out)| == |out|
  {
    if out == [] {
      assert Elements(out) == {};
    } else {
      var front, last := out[..|out| - 1], out[|out| - 1];
      ElementsSize(front, bound);
      assert out == front + [last];
      assert Elements(out) == Elements(front) + {last};
    }
  }

  /** The position of the held message, if there is one. */
  function HeldSet(s: State): set<nat> {
    if s.reader.held.Some? then {s.heldAt} else {}
  }

  /** Positions that were taken off the wire and can no longer reach the host. */
  function Lost(s: State): set<nat> {
    Below(0, if Front(s) < 0 then 0 else Front(s)) - Elements(s.out) - HeldSet(s)
  }

  lemma ThreeSizes(all: set<nat>, a: set<nat>, b: set<nat>)
    requires a !! b && a + b <= all
    ensures |all| == |a| + |b| + |all - a - b|
  {
    var ab := a + b;
    var rest := all - a - b;
    assert all == ab + rest;
    assert |ab + rest| == |ab| + |rest| && |ab| == |a| + |b|;
  }

  lemma SplitSize(all: set<nat>, part: set<nat>)
    requires part <= all
    ensures |all| == |part| + |all - part|
  {
    assert all == part + (all - part);
  }

  /** Two disjoint parts and the rest of a whole: their sizes add up, also after taking `base` away. */
  lemma PartSizes(all: set<nat>, a: set<nat>, b: set<nat>, base: set<nat>)
    requires a !! b && a + b <= all && base <= all && base !! all - a - b
    ensures |all| - |base| == |a - base| + |b - base| + |all - a - b|
  {
    SplitSize(all, base);
    ThreeSizes(all - base, a - base, b - base);
    assert all - base - (a - base) - (b - base) == all - a - b;
  }

  lemma HandedOverSets(w: Wire, s: State)
    requires Inv(w, s)
    ensures |Elements(s.out)| == |s.out| && |HeldSet(s)| == HeldCount(s)
    ensures Elements(s.out) !! HeldSet(s) && Elements(s.out) + HeldSet(s) <= Below(0, Front(s))
  {
    ElementsSize(s.out, Turn(s));
  }

  lemma LostSize(w: Wire, s: State)
    requires Inv(w, s)
    ensures |Lost(s)| == Dropped(s)
  {
    HandedOverSets(w, s);
    ThreeSizes(Below(0, Front(s)), Elements(s.out), HeldSet(s));
  }

  /** What was taken before buffering began is never lost. */
  lemma DirectNeverLost(w: Wire, s: State)
    requires Inv(w, s)
    ensures forall p: nat | p < Direct(s) :: p !in Lost(s)
  {
    forall p: nat | p < Direct(s) ensures p !in Lost(s) {
      if p < |s.out| {
        assert s.out[p] == p;
      }
    }
  }

  /** In every reachable state: everything taken off the wire was handed over, is held, waits in the ring, or was
      dropped; the ring is the newest messages, never more than its capacity; and messages are handed over in wire
      order, each once. */
  lemma RingConservation(w: Wire, schedule: seq<Label>)
    ensures var s := Run(w, INIT, schedule);
            && s.pos == |s.out| + HeldCount(s) + |Queue(s)| + Dropped(s)
            && Window(w.msgs, s.pos, Queue(s))
            && (s.reader.ring.Some? ==> |Queue(s)| <= s.reader.ring.value.cap)
            && Log(w.msgs, s.out, s.got, Turn(s))
  {
    RunKeepsInv(w, INIT, schedule);
  }

  /** The drop counter is exactly the number of positions that were overtaken: older than the ring, neither handed over
      nor held; and none of them was taken before buffering began. */
  lemma DroppedCountsTheLost(w: Wire, schedule: seq<Label>)
    ensures var s := Run(w, INIT, schedule);
            |Lost(s)| == Dropped(s) && forall p: nat | p < Direct(s) :: p !in Lost(s)
  {
    RunKeepsInv(w, INIT, schedule);
    LostSize(w, Run(w, INIT, schedule));
    DirectNeverLost(w, Run(w, INIT, schedule));
  }

  lemma StateSinceSwitch(w: Wire, s: State)
    requires Inv(w, s) && s.reader.ring.Some?
    ensures s.pos - s.switchAt == |Elements(s.out) - Below(0, s.switchAt)| + |HeldSet(s) - Below(0, s.switchAt)|
                                  + |Queue(s)| + Dropped(s)
  {
    LostSize(w, s);
    DirectNeverLost(w, s);
    HandedOverSets(w, s);
    PartSizes(Below(0, Front(s)), Elements(s.out), HeldSet(s), Below(0, s.switchAt));
  }

  /** The same account since buffering began: received = handed over from the ring + held from the ring + depth
      + dropped. */
  lemma ConservationSinceSwitch(w: Wire, schedule: seq<Label>)
    ensures var s := Run(w, INIT, schedule);
            s.reader.ring.Some? ==>
              s.pos - s.switchAt == |Elements(s.out) - Below(0, s.switchAt)| + |HeldSet(s) - Below(0, s.switchAt)|
                                    + |Queue(s)| + Dropped(s)
  {
    RunKeepsInv(w, INIT, schedule);
    var s := Run(w, INIT, schedule);
    if s.reader.ring.Some? {
      StateSinceSwitch(w, s);
    }
  }

  // ---- The ring refines a plain queue when it never drops --------------------------------

  predicate HasRoom(w: Wire, s: State, l: Label) {
    l.Pump? && s.pumpAlive && s.reader.ring.Some? && s.pos < |w.msgs| ==> |Queue(s)| < s.reader.ring.value.cap
  }

  /** Every message the pump takes finds room. */
  predicate AlwaysRoom(w: Wire, s: State, schedule: seq<Label>)
    decreases |schedule|
  {
    schedule != [] ==> HasRoom(w, s, schedule[0]) && AlwaysRoom(w, Step(w, s, schedule[0]), schedule[1..])
  }

  lemma StepDrops(w: Wire, s: State, l: Label)
    ensures Dropped(Step(w, s, l)) == Dropped(s) + if HasRoom(w, s, l) then 0 else 1
  {
    match l
    case Read =>
    case ReadInto(dest) => assert Dropped(Step(w, s, l)) == Dropped(Step(w, s, Read));
    case Buffer(_) =>
    case Pump =>
  }

  lemma {:induction false} RoomIffNoDrop(w: Wire, s: State, schedule: seq<Label>)
    ensures Dropped(s) <= Dropped(Run(w, s, schedule))
    ensures AlwaysRoom(w, s, schedule) <==> Dropped(Run(w, s, schedule)) == Dropped(s)
    decreases |schedule|
  {
    if schedule != [] {
      StepDrops(w, s, schedule[0]);
      RoomIffNoDrop(w, Step(w, s, schedule[0]), schedule[1..]);
    }
  }

  lemma DenseWhenNothingDropped(w: Wire, s: State)
    requires Inv(w, s) && Dropped(s) == 0
    ensures forall k | 0 <= k < |s.out| :: s.out[k] == k
  {
    forall k | 0 <= k < |s.out| ensures s.out[k] == k {
      GapsOnly(s.out, Turn(s), k);
    }
  }

  /** A strictly increasing list of positions below `bound` leaves at least k positions below its k-th entry, and
      at least as many above as it has entries left. */
  lemma {:induction false} GapsOnly(out: seq<nat>, bound: int, k: nat)
    requires Increasing(out, bound) && k < |out|
    ensures k <= out[k] <= bound - (|out| - k)
    decreases |out|
  {
    if |out| > 1 {
      var front, last := out[..|out| - 1], out[|out| - 1];
      if k < |front| {
        GapsOnly(front, last, k);
      } else {
        GapsOnly(front, last, k - 1);
      }
    }
  }

  lemma DenseReadsThePrefix(w: Wire, s: State)
    requires Inv(w, s) && Dropped(s) == 0
    ensures |s.got| <= s.pos <= |w.msgs| && s.got == w.msgs[..|s.got|]
    ensures s.got + ToSeq(s.reader.held) == w.msgs[..Front(s)]
  {
    DenseWhenNothingDropped(w, s);
    assert s.got == w.msgs[..|s.got|];
    if s.reader.held.Some? {
      assert s.heldAt == |s.out| by {
        if s.out != [] {
          GapsOnly(s.out, Turn(s), |s.out| - 1);
        }
      }
    }
  }

  lemma InLineIffNoDrop(w: Wire, s: State)
    requires Inv(w, s)
    ensures |s.got| <= s.pos <= |w.msgs|
    ensures Dropped(s) == 0 <==> s.got + ToSeq(s.reader.held) + Queue(s) == w.msgs[..s.pos]
    ensures Dropped(s) == 0 ==> s.got == w.msgs[..|s.got|]
  {
    assert |s.got + ToSeq(s.reader.held) + Queue(s)| == s.pos - Dropped(s);
    if Dropped(s) == 0 {
      DenseReadsThePrefix(w, s);
      assert w.msgs[..Front(s)] + w.msgs[Front(s)..s.pos] == w.msgs[..s.pos];
    }
  }

  /** The ring is a plain queue exactly as long as every message the pump takes finds it below capacity: then, and
      only then, what was handed over, what is held and what waits make up everything received, in order, so
      the host has been handed what the unbuffered reader would have handed it. */
  lemma RingRefinesFifo(w: Wire, schedule: seq<Label>)
    ensures var s := Run(w, INIT, schedule);
            && |s.got| <= s.pos <= |w.msgs|
            && (AlwaysRoom(w, INIT, schedule) <==> s.got + ToSeq(s.reader.held) + Queue(s) == w.msgs[..s.pos])
            && (AlwaysRoom(w, INIT, schedule) ==> s.got == w.msgs[..|s.got|])
  {
    RunKeepsInv(w, INIT, schedule);
    RoomIffNoDrop(w, INIT, schedule);
    InLineIffNoDrop(w, Run(w, INIT, schedule));
  }

  // ---- The objects as the program writes them --------------------------------------------

  class Ring {
    var q: seq<Message>
    const cap: nat
    var dropped: nat
    var done: bool
    var failed: bool

    ghost function View(): RingState
      reads this
    {
      RingState(q, cap, dropped, done, failed)
    }

    constructor (cap: nat)
      ensures View() == RingState([], cap, 0, false, false)
    {
      this.cap := cap;
      q, dropped, done, failed := [], 0, false, false;
    }

    /** One round of the pump; it goes on as long as messages come. */
    method PumpOnce(item: WireItem) returns (more: bool)
      modifies this
      ensures View() == old(View()).Pump(item) && more == item.Msg?
    {
      match item {
        case Msg(m) =>
          if |q| >= cap {
            if q != [] {
              q := q[1..];
            }
            dropped := dropped + 1;
          }
          q := q + [m];
        case End => done := true;
        case Failure => failed, done := true, true;
      }
      more := item.Msg?;
    }
  }

  class GrpcClientStream {
    var ring: Ring?
    var pending: Option<Message>

    ghost function View(): Reader
      reads this, ring
    {
      Reader(if ring == null then None else Some(ring.View()), pending)
    }

    constructor ()
      ensures View() == Reader(None, None)
    {
      ring, pending := null, None;
    }

    method TakeNext(wire: WireItem) returns (code: int, msg: Option<Message>, took: bool)
      modifies this`pending, ring
      ensures ring == old(ring)
      ensures Next(code, msg, View(), took) == NextMessage(old(View()), wire)
    {
      if pending.Some? {
        msg, pending := pending, None;
        return READ_MESSAGE, msg, false;
      }
      if ring == null {
        match wire {
          case Msg(m) => return READ_MESSAGE, Some(m), true;
          case End => return READ_NOTHING, None, false;
          case Failure => return ZPR_ERR, None, false;
        }
      }
      if ring.q != [] {
        msg := Some(ring.q[0]);
        ring.q := ring.q[1..];
        return READ_MESSAGE, msg, false;
      }
      return if ring.failed then ZPR_ERR else READ_NOTHING, None, false;
    }

    /** The allocating read: the message becomes the caller's. */
    method Read(wire: WireItem) returns (code: int, msg: Option<Message>, took: bool)
      modifies this`pending, ring
      ensures ring == old(ring)
      ensures Next(code, msg, View(), took) == NextMessage(old(View()), wire)
      ensures (code == 1 <==> msg.Some?) && pending == None
      ensures old(pending).Some? ==> msg == old(pending) && !took
      ensures old(pending).None? && ring == null ==>
                && took == wire.Msg? && (took ==> msg == Some(wire.m))
                && (code == 0 <==> wire.End?) && (code == -1 <==> wire.Failure?)
      ensures old(pending).None? && ring != null ==>
                && (old(View()).ring.value.q != [] ==> msg == Some(old(View()).ring.value.q[0]))
                && (code == 0 <==> old(View()).ring.value.q == [] && !old(View()).ring.value.failed)
                && (code == -1 <==> old(View()).ring.value.q == [] && old(View()).ring.value.failed)
    {
      code, msg, took := TakeNext(wire);
    }

    /** The read into a caller-owned buffer. */
    method ReadInto(wire: WireItem, out: array?<byte>, cap: nat) returns (code: int, len: nat, took: bool)
      requires out != null ==> cap <= out.Length
      modifies this`pending, ring, out
      ensures ring == old(ring)
      ensures var n := NextMessage(old(View()), wire);
              var r := IntoBuffer(n, DestOf(out, cap));
              && code == r.code && took == r.took && View() == r.reader
              && len == (if n.msg.Some? then |n.msg.value| else 0)
              && (out != null && r.msg.Some? ==> out[..] == r.msg.value + old(out[..])[len..])
              && (out != null && r.msg == None ==> out[..] == old(out[..]))
      ensures var n := NextMessage(old(View()), wire);
              match n.msg
              case None => code == n.code
              case Some(m) =>
                && (code == 1 <==> |m| <= cap && (out == null ==> m == []))
                && (code == -2 <==> |m| > cap)
                && (code != 1 ==> pending == Some(m))
    {
      var msg;
      code, msg, took := TakeNext(wire);
      len := 0;
      if msg.Some? {
        var rc, n := CopyInto(msg.value, out, cap);
        len := n;
        if rc != ZPR_OK {
          pending := msg;
          code := rc;
        }
      }
    }

    method Buffer(capacity: nat) returns (rc: int)
      modifies this`ring
      ensures (View(), rc) == StartBuffering(old(View()), capacity)
      ensures rc == 0 <==> capacity > 0 && old(ring) == null
      ensures rc == 0 ==> ring != null && ring.View() == RingState([], capacity, 0, false, false)
      ensures rc != 0 ==> rc == -1 && ring == old(ring)
    {
      if capacity == 0 || ring != null {
        return ZPR_ERR;
      }
      ring := new Ring(capacity);
      rc := ZPR_OK;
    }

    method Stats() returns (depth: nat, dropped: nat)
      ensures View().ring.None? ==> depth == 0 && dropped == 0
      ensures View().ring.Some? ==> depth == |View().ring.value.q| && dropped == View().ring.value.dropped
    {
      if ring == null {
        return 0, 0;
      }
      return |ring.q|, ring.dropped;
    }
  }
}
