/** The queued server's call table as a concurrent protocol: one step per lock region or atomic update. */
module CallTable {
  import opened Bytes
  import opened Ffi
  import opened Channels

  type Path = seq<byte>

  datatype Ticket = Ticket(id: nat, path: Path)

  const ACCEPT_NONE := 0
  const ACCEPT_CALL := 1

  /** The deadline of a call that arrived while deadlines were disabled: u64::MAX / 4 milliseconds away. */
  const FAR_FUTURE := 0x3FFF_FFFF_FFFF_FFFF

  function Expiry(now: nat, ms: nat): nat {
    now + if ms == 0 then FAR_FUTURE else ms
  }

  /** How long a call may live that arrives under a deadline of `ms`: a quarter of what 64 bits hold if that is 0. */
  function Lifespan(ms: nat): nat {
    if ms == 0 then 0xFFFF_FFFF_FFFF_FFFF / 4 else ms
  }

  datatype AcceptResult = AcceptResult(code: int, ticket: Option<Ticket>, len: nat, q: Queue)

  /** The shared fields of the queue; `live` is reduced to the expiry stamped on each call. */
  datatype Queue = Queue(
    pending: seq<Ticket>, live: map<nat, nat>, nextId: nat, maxPending: nat, deadlineMs: nat,
    accepted: nat, completed: nat, refused: nat, reaped: nat)
  {
    predicate IsFull() {
      |pending| >= maxPending
    }

    function Insert(id: nat, expiry: nat): Queue {
      this.(live := live[id := expiry])
    }

    function Push(t: Ticket): Queue {
      this.(pending := pending + [t])
    }

    /** `lenBefore` is what the caller's length variable held: with nothing waiting it is not written. */
    function Accept(dest: Dest, lenBefore: nat): AcceptResult {
      if pending == [] then AcceptResult(ACCEPT_NONE, None, lenBefore, this)
      else
        var t := pending[0];
        var rc := CopyCode(|t.path|, dest);
        if rc != ZPR_OK then AcceptResult(rc, None, |t.path|, this)
        else AcceptResult(ACCEPT_CALL, Some(t), |t.path|, this.(pending := pending[1..], accepted := accepted + 1))
    }

    function Expired(now: nat): set<nat> {
      set id | id in live && live[id] <= now
    }

    function Remove(ids: set<nat>): Queue {
      this.(live := live - ids)
    }

    /** A limit of 0 is refused before anything is stored. */
    function SetLimit(limit: nat): Queue {
      if limit == 0 then this else this.(maxPending := limit)
    }

    function SetDeadline(deadline: nat): Queue {
      this.(deadlineMs := deadline)
    }
  }

  const NEW_QUEUE := Queue([], map[], 1, 1024, 30_000, 0, 0, 0, 0)

  // ---- The protocol ----------------------------------------------------------------------

  datatype Arrival = Arrival(path: Path, ms: nat)

  /** The sweep: deadline seen non-zero, clock read, then answering what was removed. */
  datatype Sweep = Idle | Armed | Timed(at: nat) | Answering(todo: set<nat>, current: Option<nat>)

  datatype Life = Running | Stopped | Freeing

  datatype Answer = Answer(id: nat, party: Party)

  /** Arrivals between two of their regions. */
  datatype Arrivals = Arrivals(
    passed: seq<Path>,               // past the full-queue check
    loaded: seq<Arrival>,            // have read the deadline
    minted: map<nat, Arrival>,       // have an id, not in `live` yet
    inserted: map<nat, Path>)        // in `live`, not on `pending` yet

  /** What has happened so far; no step looks at it. */
  datatype History = History(
    arrived: nat,                    // arrivals that reached the full-queue check
    pushed: seq<Ticket>,             // everything ever put on `pending`
    collected: seq<Ticket>,          // everything accept ever returned
    sent: seq<Answer>,               // statuses sent
    answered: map<nat, Party>,       // calls whose answering is finished
    freed: nat,                      // how many of them the final free answered
    insertedAt: map<nat, nat>,       // when each call was put in `live`
    stamps: map<nat, nat>,           // the expiry it was given
    lastSweep: nat)                  // clock reading used by the latest removal pass

  datatype Sys = Sys(
    q: Queue,
    now: nat,
    life: Life,
    arr: Arrivals,
    completing: map<nat, bool>,      // removed by the host, not yet counted; true once the status is sent
    sweep: Sweep,
    hist: History)

  const INIT := Sys(NEW_QUEUE, 0, Running, Arrivals([], [], map[], map[]), map[], Idle,
                    History(0, [], [], [], map[], 0, map[], map[], 0))

  datatype Label =
    | Tick(ms: nat)
    | Check(path: Path) | Load(i: nat) | Mint(i: nat) | Insert(id: nat) | Push(id: nat)
    | Accept(dest: Dest)
    | Remove(id: nat) | SendHost(id: nat) | CountHost(id: nat)
    | Arm | ReadClock | Expire | SendReaper(id: nat) | CountReaper
    | SetLimit(limit: nat) | SetDeadline(deadline: nat)      // the two stores of a configure call
    | Stop | Free | FreeOne(id: nat)

  function Without<T>(s: seq<T>, i: nat): seq<T>
    requires i < |s|
  {
    s[..i] + s[i + 1..]
  }

  predicate Quiet(s: Sys) {
    s.arr == Arrivals([], [], map[], map[]) && s.sweep.Idle?
  }

  function ArrivalStep(s: Sys, l: Label): Sys {
    match l
    case Check(path) =>
      if !s.life.Running? then s
      else
        var h := s.hist.(arrived := s.hist.arrived + 1);
        if s.q.IsFull() then s.(q := s.q.(refused := s.q.refused + 1), hist := h)
        else s.(arr := s.arr.(passed := s.arr.passed + [path]), hist := h)
    case Load(i) =>
      if i < |s.arr.passed| then
        s.(arr := s.arr.(passed := Without(s.arr.passed, i),
                         loaded := s.arr.loaded + [Arrival(s.arr.passed[i], s.q.deadlineMs)]))
      else s
    case Mint(i) =>
      if i < |s.arr.loaded| then
        s.(arr := s.arr.(loaded := Without(s.arr.loaded, i), minted := s.arr.minted[s.q.nextId := s.arr.loaded[i]]),
           q := s.q.(nextId := s.q.nextId + 1))
      else s
    case Insert(id) =>
      if id in s.arr.minted then
        var a := s.arr.minted[id];
        var expiry := Expiry(s.now, a.ms);
        s.(arr := s.arr.(minted := s.arr.minted - {id}, inserted := s.arr.inserted[id := a.path]),
           q := s.q.Insert(id, expiry),
           hist := s.hist.(insertedAt := s.hist.insertedAt[id := s.now], stamps := s.hist.stamps[id := expiry]))
      else s
    case Push(id) =>
      if id in s.arr.inserted then
        var t := Ticket(id, s.arr.inserted[id]);
        s.(arr := s.arr.(inserted := s.arr.inserted - {id}),
           q := s.q.Push(t), hist := s.hist.(pushed := s.hist.pushed + [t]))
      else s
    case _ => s
  }

  function HostStep(s: Sys, l: Label): Sys {
    match l
    case Accept(dest) =>
      var r := s.q.Accept(dest, 0);
      s.(q := r.q, hist := s.hist.(collected := s.hist.collected + ToSeq(r.ticket)))
    case Remove(id) =>
      if id in s.q.live then s.(q := s.q.Remove({id}), completing := s.completing[id := false]) else s
    case SendHost(id) =>
      if id in s.completing && !s.completing[id] then
        s.(completing := s.completing[id := true], hist := s.hist.(sent := s.hist.sent + [Answer(id, Host)]))
      else s
    case CountHost(id) =>
      if id in s.completing && s.completing[id] then
        s.(completing := s.completing - {id}, hist := s.hist.(answered := s.hist.answered[id := Host]),
           q := s.q.(completed := s.q.completed + 1))
      else s
    case SetLimit(limit) => s.(q := s.q.SetLimit(limit))
    case SetDeadline(deadline) => s.(q := s.q.SetDeadline(deadline))
    case _ => s
  }

  function SweepStep(s: Sys, l: Label): Sys {
    match l
    case Arm => if s.sweep.Idle? && s.life.Running? && s.q.deadlineMs != 0 then s.(sweep := Armed) else s
    case ReadClock => if s.sweep.Armed? then s.(sweep := Timed(s.now)) else s
    case Expire =>
      if s.sweep.Timed? then
        var ids := s.q.Expired(s.sweep.at);
        s.(q := s.q.Remove(ids), hist := s.hist.(lastSweep := s.sweep.at),
           sweep := if ids == {} then Idle else Answering(ids, None))
      else s
    case SendReaper(id) =>
      if s.sweep.Answering? && s.sweep.current == None && id in s.sweep.todo then
        s.(sweep := Answering(s.sweep.todo - {id}, Some(id)),
           hist := s.hist.(sent := s.hist.sent + [Answer(id, Reaper)]))
      else s
    case CountReaper =>
      if s.sweep.Answering? && s.sweep.current.Some? then
        s.(sweep := if s.sweep.todo == {} then Idle else Answering(s.sweep.todo, None),
           hist := s.hist.(answered := s.hist.answered[s.sweep.current.value := Reaper]),
           q := s.q.(reaped := s.q.reaped + 1))
      else s
    case _ => s
  }

  function LifeStep(s: Sys, l: Label): Sys {
    match l
    case Tick(ms) => s.(now := s.now + ms)
    case Stop => if s.life.Running? && Quiet(s) then s.(life := Stopped) else s
    case Free => if s.life.Stopped? && s.completing == map[] then s.(life := Freeing) else s
    case FreeOne(id) =>
      if s.life.Freeing? && id in s.q.live then
        s.(q := s.q.Remove({id}),
           hist := s.hist.(sent := s.hist.sent + [Answer(id, Shutdown)],
                           answered := s.hist.answered[id := Shutdown], freed := s.hist.freed + 1))
      else s
    case _ => s
  }

  predicate IsArrival(l: Label) {
    l.Check? || l.Load? || l.Mint? || l.Insert? || l.Push?
  }

  predicate IsHost(l: Label) {
    l.Accept? || l.Remove? || l.SendHost? || l.CountHost? || l.SetLimit? || l.SetDeadline?
  }

  predicate IsSweep(l: Label) {
    l.Arm? || l.ReadClock? || l.Expire? || l.SendReaper? || l.CountReaper?
  }

  /** One atomic step of whichever party `l` names; a step that is not possible changes nothing.
      The handle is gone once the free has begun, so the host can no longer act. */
  function Step(s: Sys, l: Label): Sys {
    if IsArrival(l) then ArrivalStep(s, l)
    else if IsHost(l) then (if s.life.Freeing? then s else HostStep(s, l))
    else if IsSweep(l) then SweepStep(s, l)
    else LifeStep(s, l)
  }

  function Run(s: Sys, schedule: seq<Label>): Sys
    decreases |schedule|
  {
    if schedule == [] then s else Run(Step(s, schedule[0]), schedule[1..])
  }

  // ---- Where an id can be ----------------------------------------------------------------

  /** Removed by a sweep and not yet counted as reaped. */
  function Sweeping(s: Sys): set<nat> {
    match s.sweep
    case Answering(todo, Some(id)) => todo + {id}
    case Answering(todo, None) => todo
    case _ => {}
  }

  /** The five places an id can be in: not yet inserted, live, being answered by the host or by a sweep, answered. */
  datatype Places = Places(
    minted: set<nat>, live: set<nat>, completing: set<nat>, sweeping: set<nat>, answered: set<nat>)
  {
    predicate Has(id: nat) {
      id in minted || id in live || id in completing || id in sweeping || id in answered
    }

    /** Every id below `nextId` is in exactly one place, and no other id is anywhere. */
    ghost predicate Partition(nextId: nat) {
      && (forall id: nat :: Has(id) <==> 1 <= id < nextId)
      && minted !! live && minted !! completing && minted !! sweeping && minted !! answered
      && live !! completing && live !! sweeping && live !! answered
      && completing !! sweeping && completing !! answered && sweeping !! answered
    }
  }

  function PlacesOf(s: Sys): Places {
    Places(s.arr.minted.Keys, s.q.live.Keys, s.completing.Keys, Sweeping(s), s.hist.answered.Keys)
  }

  ghost predicate Located(s: Sys) {
    && s.q.nextId >= 1
    && PlacesOf(s).Partition(s.q.nextId)
    && (s.sweep.Answering? && s.sweep.current.Some? ==> s.sweep.current.value !in s.sweep.todo)
    && (!s.life.Running? ==> Quiet(s))
    && (s.life.Freeing? ==> s.completing == map[])
  }

  /** A fresh id joins, or some ids move from one place to another: the partition is kept. */
  lemma PartitionGrows(p: Places, nextId: nat)
    requires p.Partition(nextId) && nextId >= 1
    ensures p.(minted := p.minted + {nextId}).Partition(nextId + 1)
  {
    var p' := p.(minted := p.minted + {nextId});
    assert !p.Has(nextId);
    forall id: nat ensures p'.Has(id) <==> p.Has(id) || id == nextId {}
  }

  lemma PartitionMoves(p: Places, p': Places, ids: set<nat>, nextId: nat)
    requires p.Partition(nextId)
    requires
      || (ids <= p.minted && p' == p.(minted := p.minted - ids, live := p.live + ids))
      || (ids <= p.live && p' == p.(live := p.live - ids, completing := p.completing + ids))
      || (ids <= p.live && p' == p.(live := p.live - ids, sweeping := p.sweeping + ids))
      || (ids <= p.live && p' == p.(live := p.live - ids, answered := p.answered + ids))
      || (ids <= p.completing && p' == p.(completing := p.completing - ids, answered := p.answered + ids))
      || (ids <= p.sweeping && p' == p.(sweeping := p.sweeping - ids, answered := p.answered + ids))
    ensures p'.Partition(nextId)
  {
    forall id: nat ensures p'.Has(id) <==> p.Has(id) {}
  }

  lemma LocatedMint(s: Sys, i: nat)
    requires Located(s) && i < |s.arr.loaded|
    ensures Located(ArrivalStep(s, Mint(i)))
  {
    var t := ArrivalStep(s, Mint(i));
    PartitionGrows(PlacesOf(s), s.q.nextId);
    assert PlacesOf(t) == PlacesOf(s).(minted := s.arr.minted.Keys + {s.q.nextId});
  }

  lemma LocatedInsert(s: Sys, id: nat)
    requires Located(s) && id in s.arr.minted
    ensures Located(ArrivalStep(s, Insert(id)))
  {
    var t := ArrivalStep(s, Insert(id));
    assert PlacesOf(t) == PlacesOf(s).(minted := s.arr.minted.Keys - {id}, live := s.q.live.Keys + {id});
    PartitionMoves(PlacesOf(s), PlacesOf(t), {id}, s.q.nextId);
  }

  lemma LocatedArrival(s: Sys, l: Label)
    requires Located(s) && IsArrival(l)
    ensures Located(ArrivalStep(s, l))
  {
    match l
    case Check(_) => assert PlacesOf(ArrivalStep(s, l)) == PlacesOf(s);
    case Load(_) => assert PlacesOf(ArrivalStep(s, l)) == PlacesOf(s);
    case Mint(i) => if i < |s.arr.loaded| { LocatedMint(s, i); }
    case Insert(id) => if id in s.arr.minted { LocatedInsert(s, id); }
    case Push(_) => assert PlacesOf(ArrivalStep(s, l)) == PlacesOf(s);
  }

  lemma LocatedHost(s: Sys, l: Label)
    requires Located(s) && IsHost(l) && !s.life.Freeing?
    ensures Located(HostStep(s, l))
  {
    var t := HostStep(s, l);
    match l
    case Accept(_) =>
    case Remove(id) =>
      if id in s.q.live {
        assert PlacesOf(t) == PlacesOf(s).(live := s.q.live.Keys - {id}, completing := s.completing.Keys + {id});
        PartitionMoves(PlacesOf(s), PlacesOf(t), {id}, s.q.nextId);
      }
    case SendHost(id) => assert t.completing.Keys == s.completing.Keys;
    case CountHost(id) =>
      if id in s.completing && s.completing[id] {
        assert PlacesOf(t) ==
          PlacesOf(s).(completing := s.completing.Keys - {id}, answered := s.hist.answered.Keys + {id});
        PartitionMoves(PlacesOf(s), PlacesOf(t), {id}, s.q.nextId);
      }
    case SetLimit(_) =>
    case SetDeadline(_) =>
  }

  lemma LocatedSweep(s: Sys, l: Label)
    requires Located(s) && IsSweep(l)
    ensures Located(SweepStep(s, l))
  {
    var t := SweepStep(s, l);
    match l
    case Expire =>
      if s.sweep.Timed? {
        var ids := s.q.Expired(s.sweep.at);
        assert PlacesOf(t) == PlacesOf(s).(live := s.q.live.Keys - ids, sweeping := {} + ids);
        PartitionMoves(PlacesOf(s), PlacesOf(t), ids, s.q.nextId);
      }
    case SendReaper(id) => assert Sweeping(t) == Sweeping(s);
    case CountReaper =>
      if s.sweep.Answering? && s.sweep.current.Some? {
        var id := s.sweep.current.value;
        assert PlacesOf(t) == PlacesOf(s).(sweeping := Sweeping(s) - {id}, answered := s.hist.answered.Keys + {id});
        PartitionMoves(PlacesOf(s), PlacesOf(t), {id}, s.q.nextId);
      }
    case _ =>
  }

  lemma LocatedLife(s: Sys, l: Label)
    requires Located(s)
    ensures Located(LifeStep(s, l))
  {
    var t := LifeStep(s, l);
    match l
    case FreeOne(id) =>
      if s.life.Freeing? && id in s.q.live {
        assert PlacesOf(t) == PlacesOf(s).(live := s.q.live.Keys - {id}, answered := s.hist.answered.Keys + {id});
        PartitionMoves(PlacesOf(s), PlacesOf(t), {id}, s.q.nextId);
      }
    case _ =>
  }

  // ---- Conservation ----------------------------------------------------------------------

  ghost predicate Tallied(s: Sys) {
    |s.hist.answered| == s.q.completed + s.q.reaped + s.hist.freed
  }

  lemma TalliedAnswer(s: Sys, t: Sys, id: nat, party: Party)
    requires Tallied(s) && id !in s.hist.answered && t.hist.answered == s.hist.answered[id := party]
    requires t.q.completed + t.q.reaped + t.hist.freed == s.q.completed + s.q.reaped + s.hist.freed + 1
    ensures Tallied(t)
  {
  }

  lemma TalliedArrival(s: Sys, l: Label)
    requires Tallied(s)
    ensures Tallied(ArrivalStep(s, l))
  {
  }

  lemma TalliedHost(s: Sys, l: Label)
    requires Located(s) && Tallied(s) && IsHost(l)
    ensures Tallied(HostStep(s, l))
  {
    if l.CountHost? && l.id in s.completing && s.completing[l.id] {
      TalliedAnswer(s, HostStep(s, l), l.id, Host);
    }
  }

  lemma TalliedSweep(s: Sys, l: Label)
    requires Located(s) && Tallied(s) && IsSweep(l)
    ensures Tallied(SweepStep(s, l))
  {
    if l.CountReaper? && s.sweep.Answering? && s.sweep.current.Some? {
      assert s.sweep.current.value in Sweeping(s);
      TalliedAnswer(s, SweepStep(s, l), s.sweep.current.value, Reaper);
    }
  }

  lemma TalliedLife(s: Sys, l: Label)
    requires Located(s) && Tallied(s)
    ensures Tallied(LifeStep(s, l))
  {
    if l.FreeOne? && s.life.Freeing? && l.id in s.q.live {
      TalliedAnswer(s, LifeStep(s, l), l.id, Shutdown);
    }
  }

  /** Every arrival is refused, or on its way to an id, or has one. */
  ghost predicate Admitted(s: Sys) {
    s.hist.arrived == s.q.refused + |s.arr.passed| + |s.arr.loaded| + s.q.nextId - 1
  }

  lemma AdmittedArrival(s: Sys, l: Label)
    requires Admitted(s)
    ensures Admitted(ArrivalStep(s, l))
  {
  }

  /** The ids minted before `n`. */
  function Ids(n: nat): (r: set<nat>)
    ensures forall id :: id in r <==> 1 <= id < n
    ensures |r| == if n == 0 then 0 else n - 1
  {
    if n <= 1 then {} else Ids(n - 1) + {n - 1}
  }

  lemma PartitionSize(p: Places, nextId: nat)
    requires p.Partition(nextId) && nextId >= 1
    ensures nextId - 1 == |p.minted| + |p.live| + |p.completing| + |p.sweeping| + |p.answered|
  {
    var ab := p.minted + p.live;
    var abc := ab + p.completing;
    var abcd := abc + p.sweeping;
    var all := abcd + p.answered;
    forall id ensures id in all <==> id in Ids(nextId) {
      assert p.Has(id) <==> id in all;
    }
    assert all == Ids(nextId);
    assert |ab| == |p.minted| + |p.live| && |abc| == |ab| + |p.completing|;
    assert |abcd| == |abc| + |p.sweeping| && |all| == |abcd| + |p.answered|;
  }

  // ---- Pending, accepted: first in, first out, each id once ------------------------------

  ghost predicate Distinct(ts: seq<Ticket>) {
    forall i, j :: 0 <= i < j < |ts| ==> ts[i].id != ts[j].id
  }

  ghost predicate Fifo(pushed: seq<Ticket>, collected: seq<Ticket>, pending: seq<Ticket>, accepted: nat) {
    pushed == collected + pending && accepted == |collected| && Distinct(pushed)
  }

  /** An id is on its way to `pending` or has been pushed, never both, and only once minted. */
  ghost predicate Placed(pushed: seq<Ticket>, minted: map<nat, Arrival>, inserted: map<nat, Path>, nextId: nat) {
    && (forall k | 0 <= k < |pushed| ::
          1 <= pushed[k].id < nextId && pushed[k].id !in minted && pushed[k].id !in inserted)
    && (forall id | id in inserted :: 1 <= id < nextId && id !in minted)
    && (forall id | id in minted :: 1 <= id < nextId)
    && nextId - 1 == |minted| + |inserted| + |pushed|
  }

  ghost predicate Ordered(s: Sys) {
    && Fifo(s.hist.pushed, s.hist.collected, s.q.pending, s.q.accepted)
    && Placed(s.hist.pushed, s.arr.minted, s.arr.inserted, s.q.nextId)
  }

  lemma PlacedMint(pushed: seq<Ticket>, minted: map<nat, Arrival>, inserted: map<nat, Path>, nextId: nat, a: Arrival)
    requires Placed(pushed, minted, inserted, nextId) && nextId >= 1
    ensures Placed(pushed, minted[nextId := a], inserted, nextId + 1)
  {
  }

  lemma PlacedInsert(
      pushed: seq<Ticket>, minted: map<nat, Arrival>, inserted: map<nat, Path>, nextId: nat, id: nat, path: Path)
    requires Placed(pushed, minted, inserted, nextId) && id in minted
    ensures Placed(pushed, minted - {id}, inserted[id := path], nextId)
  {
    assert (minted - {id}).Keys == minted.Keys - {id};
  }

  lemma PlacedPush(pushed: seq<Ticket>, minted: map<nat, Arrival>, inserted: map<nat, Path>, nextId: nat, t: Ticket)
    requires Placed(pushed, minted, inserted, nextId) && Distinct(pushed) && t.id in inserted
    ensures Placed(pushed + [t], minted, inserted - {t.id}, nextId) && Distinct(pushed + [t])
  {
    assert (inserted - {t.id}).Keys == inserted.Keys - {t.id};
  }

  lemma OrderedPush(s: Sys, id: nat)
    requires Ordered(s) && id in s.arr.inserted
    ensures Ordered(ArrivalStep(s, Push(id)))
  {
    var t := Ticket(id, s.arr.inserted[id]);
    PlacedPush(s.hist.pushed, s.arr.minted, s.arr.inserted, s.q.nextId, t);
    assert s.hist.pushed + [t] == s.hist.collected + (s.q.pending + [t]);
  }

  /** The first regions of an arrival touch nothing that is ordered. */
  lemma OrderedSame(s: Sys, l: Label)
    requires Ordered(s) && !l.Mint? && !l.Insert? && !l.Push?
    ensures Ordered(ArrivalStep(s, l))
  {
    var t := ArrivalStep(s, l);
    assert t.arr.minted == s.arr.minted && t.arr.inserted == s.arr.inserted && t.q.nextId == s.q.nextId;
    assert t.q.pending == s.q.pending && t.q.accepted == s.q.accepted;
  }

  lemma OrderedMint(s: Sys, i: nat)
    requires s.q.nextId >= 1 && Ordered(s) && i < |s.arr.loaded|
    ensures Ordered(ArrivalStep(s, Mint(i)))
  {
    PlacedMint(s.hist.pushed, s.arr.minted, s.arr.inserted, s.q.nextId, s.arr.loaded[i]);
  }

  lemma OrderedInsert(s: Sys, id: nat)
    requires Ordered(s) && id in s.arr.minted
    ensures Ordered(ArrivalStep(s, Insert(id)))
  {
    PlacedInsert(s.hist.pushed, s.arr.minted, s.arr.inserted, s.q.nextId, id, s.arr.minted[id].path);
  }

  lemma OrderedArrival(s: Sys, l: Label)
    requires s.q.nextId >= 1 && Ordered(s)
    ensures Ordered(ArrivalStep(s, l))
  {
    match l
    case Mint(i) => if i < |s.arr.loaded| { OrderedMint(s, i); }
    case Insert(id) => if id in s.arr.minted { OrderedInsert(s, id); }
    case Push(id) => if id in s.arr.inserted { OrderedPush(s, id); }
    case _ => OrderedSame(s, l);
  }

  lemma OrderedHost(s: Sys, l: Label)
    requires Ordered(s)
    ensures Ordered(HostStep(s, l))
  {
    if l.Accept? && s.q.pending != [] {
      assert s.hist.collected + s.q.pending == s.hist.collected + [s.q.pending[0]] + s.q.pending[1..];
    }
  }

  lemma OrderedSweep(s: Sys, l: Label)
    requires Ordered(s)
    ensures Ordered(SweepStep(s, l))
  {
  }

  lemma OrderedLife(s: Sys, l: Label)
    requires Ordered(s)
    ensures Ordered(LifeStep(s, l))
  {
  }

  // ---- Statuses: sent at most once -------------------------------------------------------

  predicate StatusSent(s: Sys, id: nat) {
    || id in s.hist.answered
    || (id in s.completing && s.completing[id])
    || (s.sweep.Answering? && s.sweep.current == Some(id))
  }

  /** The party that answered, or is answering, a call whose status is out. */
  function Answerer(s: Sys, id: nat): Party {
    if id in s.hist.answered then s.hist.answered[id]
    else if id in s.completing then Host
    else Reaper
  }

  ghost predicate SentOnce(s: Sys) {
    && (forall i, j :: 0 <= i < j < |s.hist.sent| ==> s.hist.sent[i].id != s.hist.sent[j].id)
    && (forall a | a in s.hist.sent :: StatusSent(s, a.id) && a.party == Answerer(s, a.id))
    && (forall id | StatusSent(s, id) :: Answer(id, Answerer(s, id)) in s.hist.sent)
  }

  /** A step that sends no status neither adds nor changes an answer; a step that sends one adds just that. */
  ghost predicate AnswersExtend(s: Sys, t: Sys) {
    if t.hist.sent == s.hist.sent then
      forall id ::
        (StatusSent(t, id) <==> StatusSent(s, id)) && (StatusSent(s, id) ==> Answerer(t, id) == Answerer(s, id))
    else
      && |t.hist.sent| == |s.hist.sent| + 1 && t.hist.sent[..|s.hist.sent|] == s.hist.sent
      && var a := t.hist.sent[|s.hist.sent|];
         && !StatusSent(s, a.id) && StatusSent(t, a.id) && Answerer(t, a.id) == a.party
         && forall id | id != a.id ::
              (StatusSent(t, id) <==> StatusSent(s, id)) && (StatusSent(s, id) ==> Answerer(t, id) == Answerer(s, id))
  }

  lemma HostAnswersExtend(s: Sys, l: Label)
    requires Located(s)
    ensures AnswersExtend(s, HostStep(s, l))
  {
  }

  lemma SweepAnswersExtend(s: Sys, l: Label)
    requires Located(s)
    ensures AnswersExtend(s, SweepStep(s, l))
  {
  }

  lemma ArrivalAnswersExtend(s: Sys, l: Label)
    requires Located(s)
    ensures AnswersExtend(s, ArrivalStep(s, l))
  {
  }

  lemma LifeAnswersExtend(s: Sys, l: Label)
    requires Located(s)
    ensures AnswersExtend(s, LifeStep(s, l))
  {
  }

  lemma ExtendedSentOnce(s: Sys, t: Sys)
    requires SentOnce(s) && AnswersExtend(s, t)
    ensures SentOnce(t)
  {
    if t.hist.sent != s.hist.sent {
      var a := t.hist.sent[|s.hist.sent|];
      assert t.hist.sent == s.hist.sent + [a];
      forall id | StatusSent(t, id) ensures Answer(id, Answerer(t, id)) in t.hist.sent {
        assert id != a.id ==> Answer(id, Answerer(s, id)) in s.hist.sent;
      }
    }
  }

  // ---- Deadlines -------------------------------------------------------------------------

  ghost predicate OnTime(s: Sys) {
    && s.hist.lastSweep <= s.now
    && (s.sweep.Timed? ==> s.hist.lastSweep <= s.sweep.at <= s.now)
    && (forall id | id in s.hist.stamps :: id < s.q.nextId && id !in s.arr.minted)
    && (forall id | id in s.q.live :: id in s.hist.stamps && s.hist.stamps[id] == s.q.live[id] > s.hist.lastSweep)
    && (forall id | id in Sweeping(s) :: id in s.hist.stamps && s.hist.stamps[id] <= s.now)
    && (forall id | id in s.hist.answered && s.hist.answered[id] == Reaper ::
          id in s.hist.stamps && s.hist.stamps[id] <= s.now)
  }

  lemma OnTimeInsert(s: Sys, id: nat)
    requires Located(s) && OnTime(s) && id in s.arr.minted
    ensures OnTime(ArrivalStep(s, Insert(id)))
  {
    var t := ArrivalStep(s, Insert(id));
    assert Sweeping(t) == Sweeping(s) && id !in Sweeping(s) && id !in s.hist.answered;
    assert PlacesOf(s).Has(id);
  }

  lemma OnTimeMint(s: Sys, i: nat)
    requires Located(s) && OnTime(s) && i < |s.arr.loaded|
    ensures OnTime(ArrivalStep(s, Mint(i)))
  {
    var t := ArrivalStep(s, Mint(i));
    assert Sweeping(t) == Sweeping(s);
  }

  lemma OnTimeSame(s: Sys, t: Sys)
    requires OnTime(s) && t == s.(q := t.q, arr := t.arr, hist := t.hist)
    requires t.arr.minted == s.arr.minted && t.q.live == s.q.live && t.q.nextId == s.q.nextId
    requires t.hist.stamps == s.hist.stamps && t.hist.answered == s.hist.answered
    requires t.hist.lastSweep == s.hist.lastSweep
    ensures OnTime(t)
  {
    assert Sweeping(t) == Sweeping(s);
  }

  lemma OnTimeOther(s: Sys, l: Label)
    requires OnTime(s) && !l.Insert? && !l.Mint?
    ensures OnTime(ArrivalStep(s, l))
  {
    OnTimeSame(s, ArrivalStep(s, l));
  }

  lemma OnTimeArrival(s: Sys, l: Label)
    requires Located(s) && OnTime(s)
    ensures OnTime(ArrivalStep(s, l))
  {
    match l
    case Insert(id) => if id in s.arr.minted { OnTimeInsert(s, id); }
    case Mint(i) => if i < |s.arr.loaded| { OnTimeMint(s, i); }
    case _ => OnTimeOther(s, l);
  }

  lemma OnTimeHost(s: Sys, l: Label)
    requires Located(s) && OnTime(s)
    ensures OnTime(HostStep(s, l))
  {
  }

  lemma OnTimeSweep(s: Sys, l: Label)
    requires Located(s) && OnTime(s)
    ensures OnTime(SweepStep(s, l))
  {
  }

  lemma OnTimeLife(s: Sys, l: Label)
    requires Located(s) && OnTime(s)
    ensures OnTime(LifeStep(s, l))
  {
  }

  // ---- Whole runs ------------------------------------------------------------------------

  ghost predicate Inv(s: Sys) {
    Located(s) && Tallied(s) && Admitted(s) && Ordered(s) && SentOnce(s) && OnTime(s)
  }

  lemma ArrivalKeepsInv(s: Sys, l: Label)
    requires Inv(s) && IsArrival(l)
    ensures Inv(ArrivalStep(s, l))
  {
    LocatedArrival(s, l);
    TalliedArrival(s, l);
    AdmittedArrival(s, l);
    OrderedArrival(s, l);
    OnTimeArrival(s, l);
    ArrivalAnswersExtend(s, l);
    ExtendedSentOnce(s, ArrivalStep(s, l));
  }

  lemma HostKeepsInv(s: Sys, l: Label)
    requires Inv(s) && IsHost(l) && !s.life.Freeing?
    ensures Inv(HostStep(s, l))
  {
    LocatedHost(s, l);
    TalliedHost(s, l);
    OrderedHost(s, l);
    OnTimeHost(s, l);
    HostAnswersExtend(s, l);
    ExtendedSentOnce(s, HostStep(s, l));
  }

  lemma SweepKeepsInv(s: Sys, l: Label)
    requires Inv(s) && IsSweep(l)
    ensures Inv(SweepStep(s, l))
  {
    LocatedSweep(s, l);
    TalliedSweep(s, l);
    OrderedSweep(s, l);
    OnTimeSweep(s, l);
    SweepAnswersExtend(s, l);
    ExtendedSentOnce(s, SweepStep(s, l));
  }

  lemma LifeKeepsInv(s: Sys, l: Label)
    requires Inv(s) && !IsArrival(l) && !IsHost(l) && !IsSweep(l)
    ensures Inv(LifeStep(s, l))
  {
    LocatedLife(s, l);
    TalliedLife(s, l);
    OrderedLife(s, l);
    OnTimeLife(s, l);
    LifeAnswersExtend(s, l);
    ExtendedSentOnce(s, LifeStep(s, l));
  }

  lemma StepKeepsInv(s: Sys, l: Label)
    requires Inv(s)
    ensures Inv(Step(s, l))
  {
    if IsArrival(l) {
      ArrivalKeepsInv(s, l);
    } else if IsHost(l) {
      if !s.life.Freeing? {
        HostKeepsInv(s, l);
      }
    } else if IsSweep(l) {
      SweepKeepsInv(s, l);
    } else {
      LifeKeepsInv(s, l);
    }
  }

  lemma {:induction false} RunKeepsInv(s: Sys, schedule: seq<Label>)
    requires Inv(s)
    ensures Inv(Run(s, schedule))
    decreases |schedule|
  {
    if schedule != [] {
      StepKeepsInv(s, schedule[0]);
      RunKeepsInv(Step(s, schedule[0]), schedule[1..]);
    }
  }

  lemma InitLocated()
    ensures Located(INIT)
  {
    forall id: nat ensures !PlacesOf(INIT).Has(id) {}
  }

  lemma InitCounts()
    ensures Tallied(INIT) && Admitted(INIT)
  {
    var none: map<nat, Party> := map[];
    assert |none| == 0 && INIT.hist.answered == none;
  }

  lemma InitOrdered()
    ensures Ordered(INIT)
  {
    var minted: map<nat, Arrival> := map[];
    var inserted: map<nat, Path> := map[];
    assert |minted| == 0 && |inserted| == 0 && INIT.arr == Arrivals([], [], minted, inserted);
    assert INIT.hist.pushed == INIT.hist.collected + INIT.q.pending == [];
  }

  lemma InitSentOnce()
    ensures SentOnce(INIT)
  {
    assert INIT.hist.sent == [] && forall id :: !StatusSent(INIT, id);
  }

  lemma InitOnTime()
    ensures OnTime(INIT)
  {
    assert Sweeping(INIT) == {} && INIT.q.live == map[] && INIT.hist.stamps == map[] && INIT.hist.answered == map[];
  }

  lemma InitHoldsInv()
    ensures Inv(INIT)
  {
    InitLocated();
    InitCounts();
    InitOrdered();
    InitSentOnce();
    InitOnTime();
  }

  lemma Reachable(schedule: seq<Label>)
    ensures Inv(Run(INIT, schedule))
  {
    InitHoldsInv();
    RunKeepsInv(INIT, schedule);
  }

  /** Exactly one answer per call, over every interleaving of arrivals, completes, sweeps and the final free:
      every minted id is in exactly one place; no id has its status sent twice; a status is out exactly for the
      ids answered or about to be counted, and by one party; and once the free has drained the table, every id
      ever minted has been sent its status. */
  lemma ExactlyOneAnswer(schedule: seq<Label>)
    ensures var s := Run(INIT, schedule);
            && Located(s)
            && (forall i, j :: 0 <= i < j < |s.hist.sent| ==> s.hist.sent[i].id != s.hist.sent[j].id)
            && (forall id | id in s.q.live || id in s.arr.minted :: forall a | a in s.hist.sent :: a.id != id)
            && (forall id | id in s.hist.answered :: Answer(id, s.hist.answered[id]) in s.hist.sent)
            && (s.life.Freeing? && s.q.live == map[] ==>
                  forall id | 1 <= id < s.q.nextId ::
                    id in s.hist.answered && Answer(id, s.hist.answered[id]) in s.hist.sent)
  {
    Reachable(schedule);
    var s := Run(INIT, schedule);
    forall id | id in s.hist.answered ensures Answer(id, s.hist.answered[id]) in s.hist.sent {
      assert StatusSent(s, id);
    }
    if s.life.Freeing? && s.q.live == map[] {
      forall id | 1 <= id < s.q.nextId ensures id in s.hist.answered {
        assert PlacesOf(s).Has(id);
      }
    }
  }

  /** The conservation laws, in every reachable state: of arrivals, of ids on their way to the host, of calls on their
      way to an answer; and what the counters add up to with nothing in flight. */
  lemma Conservation(schedule: seq<Label>)
    ensures var s := Run(INIT, schedule);
            && s.hist.arrived == s.q.refused + |s.arr.passed| + |s.arr.loaded| + s.q.nextId - 1
            && s.q.nextId - 1 == |s.arr.minted| + |s.arr.inserted| + |s.q.pending| + s.q.accepted
            && s.q.nextId - 1 == |s.arr.minted| + |s.q.live| + |s.completing| + |Sweeping(s)|
                                 + s.q.completed + s.q.reaped + s.hist.freed
            && (Quiet(s) && s.completing == map[] ==>
                  s.q.accepted + |s.q.pending| == s.q.completed + s.q.reaped + |s.q.live| + s.hist.freed)
  {
    Reachable(schedule);
    var s := Run(INIT, schedule);
    PartitionSize(PlacesOf(s), s.q.nextId);
    assert |s.arr.minted.Keys| == |s.arr.minted| && |s.q.live.Keys| == |s.q.live|;
    assert |s.completing.Keys| == |s.completing| && |s.hist.answered.Keys| == |s.hist.answered|;
  }

  /** The tempting reading of the counters, accepted = completed + reaped + live, is not a law. In every reachable
      state it holds exactly when as many calls are still on their way to the host as have left `live` without being
      counted as completed or reaped; with nothing in flight before the free, exactly when nothing is waiting. */
  lemma CountersBalance(schedule: seq<Label>)
    ensures var s := Run(INIT, schedule);
            var balanced := s.q.accepted == s.q.completed + s.q.reaped + |s.q.live|;
            && (balanced <==> |s.arr.inserted| + |s.q.pending| == |s.completing| + |Sweeping(s)| + s.hist.freed)
            && (Quiet(s) && s.completing == map[] && s.hist.freed == 0 ==> (balanced <==> s.q.pending == []))
  {
    Conservation(schedule);
  }

  /** Registration precedes visibility. Waiting and accepted ids are distinct, in arrival order, and every one of
      them is live, being answered or answered; so a "no live call" failure on an accepted id means that call
      has already been removed to be answered. */
  lemma RegisteredBeforeVisible(schedule: seq<Label>)
    ensures var s := Run(INIT, schedule);
            && s.hist.pushed == s.hist.collected + s.q.pending
            && Distinct(s.hist.collected + s.q.pending)
            && forall t | t in s.hist.collected + s.q.pending ::
                 && 1 <= t.id < s.q.nextId
                 && (t.id in s.q.live || t.id in s.completing || t.id in Sweeping(s) || t.id in s.hist.answered)
  {
    Reachable(schedule);
    var s := Run(INIT, schedule);
    forall t | t in s.hist.pushed
      ensures t.id in s.q.live || t.id in s.completing || t.id in Sweeping(s) || t.id in s.hist.answered
    {
      assert PlacesOf(s).Has(t.id);
    }
  }

  /** A buffer too small for the path changes neither the contents nor the order of the queue, reports the size
      needed, and a retry with that size gets that very call, whatever arrived or was reaped in between. */
  lemma {:induction false} ShortAcceptKeepsFront(s: Sys, dest: Dest, between: seq<Label>)
    requires s.q.pending != [] && CopyCode(|s.q.pending[0].path|, dest) != ZPR_OK
    requires forall l | l in between :: !l.Accept?
    ensures Step(s, Accept(dest)).q == s.q && s.q.Accept(dest, 0).len == |s.q.pending[0].path|
    ensures var t := Run(s, between);
            && s.q.pending <= t.q.pending
            && t.q.Accept(Dest(false, |s.q.pending[0].path|), 0).ticket == Some(s.q.pending[0])
    decreases |between|
  {
    if between != [] {
      assert between[0] in between;
      ShortAcceptKeepsFront(Step(s, between[0]), dest, between[1..]);
    }
  }

  // ---- Deadlines over whole runs --------------------------------------------------------------------

  /** If the latest removal pass read the clock at most `period` ago, no live call is `period` past the expiry it
      was stamped with, whatever the host did and however deadlines were reconfigured; and no call was ever
      answered by the reaper before its expiry. */
  lemma DeadlineBound(schedule: seq<Label>, period: nat)
    ensures var s := Run(INIT, schedule);
            && (s.now <= s.hist.lastSweep + period ==> forall id | id in s.q.live :: s.now < s.q.live[id] + period)
            && (forall a | a in s.hist.sent && a.party == Reaper ::
                  a.id in s.hist.stamps && s.hist.stamps[a.id] <= s.now)
  {
    Reachable(schedule);
    var s := Run(INIT, schedule);
    forall a | a in s.hist.sent && a.party == Reaper
      ensures a.id in s.hist.stamps && s.hist.stamps[a.id] <= s.now
    {
      assert StatusSent(s, a.id);
      if a.id !in s.hist.answered {
        assert a.id in Sweeping(s);
      }
    }
  }

  /** Only arrivals are stamped, and nobody else touches them before they are in line. */
  lemma OthersKeepStamps(s: Sys, l: Label)
    requires !IsArrival(l)
    ensures var t := Step(s, l);
            t.arr == s.arr && t.hist.stamps == s.hist.stamps && t.hist.insertedAt == s.hist.insertedAt
  {
  }

  lemma StampArrival(s: Sys, l: Label, id: nat)
    requires id in s.hist.stamps && id !in s.arr.minted
    ensures var t := ArrivalStep(s, l); id in t.hist.stamps && t.hist.stamps[id] == s.hist.stamps[id]
  {
  }

  lemma StampStep(s: Sys, l: Label, id: nat)
    requires OnTime(s) && id in s.hist.stamps
    ensures id in Step(s, l).hist.stamps && Step(s, l).hist.stamps[id] == s.hist.stamps[id]
  {
    if IsArrival(l) {
      StampArrival(s, l, id);
    } else {
      OthersKeepStamps(s, l);
    }
  }

  /** The stamp a call got on arrival is never changed, and is what it is live with. */
  lemma {:induction false} StampIsFixed(s: Sys, schedule: seq<Label>, id: nat)
    requires Inv(s) && id in s.hist.stamps
    ensures var t := Run(s, schedule);
            && id in t.hist.stamps && t.hist.stamps[id] == s.hist.stamps[id]
            && (id in t.q.live ==> t.q.live[id] == s.hist.stamps[id])
    decreases |schedule|
  {
    if schedule != [] {
      StepKeepsInv(s, schedule[0]);
      StampStep(s, schedule[0], id);
      StampIsFixed(Step(s, schedule[0]), schedule[1..], id);
    }
  }

  /** No step arms a sweep while the deadline is 0. */
  lemma IdleStaysIdle(s: Sys, l: Label)
    requires s.sweep.Idle? && s.q.deadlineMs == 0 && (l.SetDeadline? ==> l.deadline == 0)
    ensures Step(s, l).sweep.Idle? && Step(s, l).q.deadlineMs == 0 && Step(s, l).q.reaped == s.q.reaped
  {
  }

  /** A deadline of 0 stops all reaping, including of calls already stamped: from an idle reaper, no schedule
      that keeps the deadline at 0 ever reaps anything. */
  lemma {:induction false} ZeroDeadlineReapsNothing(s: Sys, schedule: seq<Label>)
    requires s.sweep.Idle? && s.q.deadlineMs == 0
    requires forall l | l in schedule && l.SetDeadline? :: l.deadline == 0
    ensures var t := Run(s, schedule); t.sweep.Idle? && t.q.reaped == s.q.reaped
    decreases |schedule|
  {
    if schedule != [] {
      assert schedule[0] in schedule;
      IdleStaysIdle(s, schedule[0]);
      ZeroDeadlineReapsNothing(Step(s, schedule[0]), schedule[1..]);
    }
  }

  /** An undisturbed sweep with a non-zero deadline removes exactly the calls whose expiry has come. */
  lemma SweepRemovesExactlyExpired(s: Sys)
    requires s.sweep.Idle? && s.life.Running? && s.q.deadlineMs != 0
    ensures var t := Step(Step(Step(s, Arm), ReadClock), Expire);
            && t.hist.lastSweep == s.now
            && Sweeping(t) == s.q.live.Keys - t.q.live.Keys
            && forall id | id in s.q.live :: id in t.q.live <==> s.q.live[id] > s.now
  {
    var t := Step(Step(Step(s, Arm), ReadClock), Expire);
    assert Sweeping(t) == s.q.Expired(s.now);
  }

  /** Every deadline that is ever set gives a lifespan between `lo` and `hi`. */
  predicate DeadlinesWithin(schedule: seq<Label>, lo: nat, hi: nat) {
    forall l | l in schedule && l.SetDeadline? :: lo <= Lifespan(l.deadline) <= hi
  }

  /** Each call's stamp is its insertion time plus the lifespan of a deadline that was in force. */
  ghost predicate Stamped(s: Sys, lo: nat, hi: nat) {
    && lo <= Lifespan(s.q.deadlineMs) <= hi
    && (forall a | a in s.arr.loaded :: lo <= Lifespan(a.ms) <= hi)
    && (forall id | id in s.arr.minted :: lo <= Lifespan(s.arr.minted[id].ms) <= hi)
    && (forall id | id in s.hist.stamps ::
          id in s.hist.insertedAt && s.hist.insertedAt[id] + lo <= s.hist.stamps[id] <= s.hist.insertedAt[id] + hi)
  }

  lemma StampedArrival(s: Sys, l: Label, lo: nat, hi: nat)
    requires Stamped(s, lo, hi) && IsArrival(l)
    ensures Stamped(ArrivalStep(s, l), lo, hi)
  {
  }

  lemma OthersKeepBounds(s: Sys, l: Label, lo: nat, hi: nat)
    requires !IsArrival(l) && lo <= Lifespan(s.q.deadlineMs) <= hi
    requires l.SetDeadline? ==> lo <= Lifespan(l.deadline) <= hi
    ensures lo <= Lifespan(Step(s, l).q.deadlineMs) <= hi
  {
  }

  lemma StampedSame(s: Sys, t: Sys, lo: nat, hi: nat)
    requires Stamped(s, lo, hi) && lo <= Lifespan(t.q.deadlineMs) <= hi
    requires t.arr == s.arr && t.hist.stamps == s.hist.stamps && t.hist.insertedAt == s.hist.insertedAt
    ensures Stamped(t, lo, hi)
  {
  }

  lemma StampedStep(s: Sys, l: Label, lo: nat, hi: nat)
    requires Stamped(s, lo, hi)
    requires l.SetDeadline? ==> lo <= Lifespan(l.deadline) <= hi
    ensures Stamped(Step(s, l), lo, hi)
  {
    if IsArrival(l) {
      StampedArrival(s, l, lo, hi);
    } else {
      OthersKeepStamps(s, l);
      OthersKeepBounds(s, l, lo, hi);
      StampedSame(s, Step(s, l), lo, hi);
    }
  }

  lemma {:induction false} StampedRun(s: Sys, schedule: seq<Label>, lo: nat, hi: nat)
    requires Stamped(s, lo, hi) && DeadlinesWithin(schedule, lo, hi)
    ensures Stamped(Run(s, schedule), lo, hi)
    decreases |schedule|
  {
    if schedule != [] {
      assert schedule[0] in schedule;
      StampedStep(s, schedule[0], lo, hi);
      StampedRun(Step(s, schedule[0]), schedule[1..], lo, hi);
    }
  }

  /** How long a call can last while lifespans stay between `lo` and `hi`, however deadlines are reconfigured: if the
      latest removal pass is at most `period` old, every live call was inserted less than hi + period ago; and
      whatever the reaper answered had been there for at least `lo`. */
  lemma LifetimeBound(schedule: seq<Label>, lo: nat, hi: nat, period: nat)
    requires lo <= 30_000 <= hi && DeadlinesWithin(schedule, lo, hi)
    ensures var s := Run(INIT, schedule);
            && (s.now <= s.hist.lastSweep + period ==>
                  forall id | id in s.q.live :: id in s.hist.insertedAt && s.now < s.hist.insertedAt[id] + hi + period)
            && (forall a | a in s.hist.sent && a.party == Reaper ::
                  a.id in s.hist.insertedAt && s.hist.insertedAt[a.id] + lo <= s.now)
  {
    Reachable(schedule);
    DeadlineBound(schedule, period);
    StampedRun(INIT, schedule, lo, hi);
  }

  // ---- What one operation does when nothing comes in between -----------------------------

  /** A call that arrives at a queue with room is live at once under the next id, for the lifespan of the deadline just
      set, and last in line. */
  lemma UndisturbedArrival(s: Sys, path: Path, deadline: nat)
    requires s.life.Running? && |s.q.pending| < s.q.maxPending
    ensures var id := s.q.nextId;
            var s1 := Step(Step(s, SetDeadline(deadline)), Check(path));
            var s2 := Step(Step(s1, Load(|s.arr.passed|)), Mint(|s.arr.loaded|));
            var t := Step(Step(s2, Insert(id)), Push(id));
            && t.q.live == s.q.live[id := s.now + Lifespan(deadline)]
            && t.q.pending == s.q.pending + [Ticket(id, path)]
            && t.q.nextId == id + 1 && t.q.refused == s.q.refused
  {
    var s1 := Step(Step(s, SetDeadline(deadline)), Check(path));
    assert s1.arr.passed[|s.arr.passed|] == path;
    var s2 := Step(Step(s1, Load(|s.arr.passed|)), Mint(|s.arr.loaded|));
    assert s2.arr.minted[s.q.nextId] == Arrival(path, deadline) && s2.q.live == s.q.live;
  }

  /** At a full queue it is refused, which only the counter shows. */
  lemma FullQueueRefuses(s: Sys, path: Path)
    requires s.life.Running? && |s.q.pending| >= s.q.maxPending
    ensures var t := Step(s, Check(path)); t.arr == s.arr && t.q == s.q.(refused := s.q.refused + 1)
  {
  }

  /** Exactly what an accept answers: 0 with nothing waiting; otherwise the first call, with 1, if its path fits, and
      else nothing but the path's length, with -2 if it is longer than the buffer and -1 if there is none for it. */
  lemma AcceptOutcome(q: Queue, dest: Dest, lenBefore: nat)
    ensures var r := q.Accept(dest, lenBefore);
            if q.pending == [] then r == AcceptResult(0, None, lenBefore, q)
            else
              var t := q.pending[0];
              if |t.path| <= dest.cap && (dest.isNull ==> t.path == []) then
                r == AcceptResult(1, Some(t), |t.path|, q.(pending := q.pending[1..], accepted := q.accepted + 1))
              else r == AcceptResult(if |t.path| > dest.cap then -2 else -1, None, |t.path|, q)
  {
  }

  /** The deadline takes effect: with one in force, an idle reaper takes out any live call once its stamp has passed. */
  lemma OverdueCallIsSwept(s: Sys, id: nat, ms: nat)
    requires s.sweep.Idle? && s.life.Running? && s.q.deadlineMs != 0 && id in s.q.live && s.now + ms >= s.q.live[id]
    ensures id in Sweeping(Step(Step(Step(Step(s, Tick(ms)), Arm), ReadClock), Expire))
  {
    SweepRemovesExactlyExpired(Step(s, Tick(ms)));
  }
}
