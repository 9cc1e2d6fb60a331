/** The queued server can always be wound up: from every reachable state the parties' own steps answer every call. */
module Shutdown {
  import opened Bytes
  import opened Channels
  import opened CallTable

  predicate NoCheck(schedule: seq<Label>) {
    forall l | l in schedule :: !l.Check?
  }

  lemma {:induction false} RunAppend(s: Sys, a: seq<Label>, b: seq<Label>)
    ensures Run(s, a + b) == Run(Run(s, a), b)
    decreases |a|
  {
    if a == [] {
      assert a + b == b;
    } else {
      assert (a + b)[1..] == a[1..] + b;
      RunAppend(Step(s, a[0]), a[1..], b);
    }
  }

  lemma RunPrepend(s: Sys, l: Label, rest: seq<Label>)
    ensures Run(s, [l] + rest) == Run(Step(s, l), rest)
  {
    assert ([l] + rest)[1..] == rest;
  }

  lemma {:induction false} NobodyNewArrives(s: Sys, schedule: seq<Label>)
    requires NoCheck(schedule)
    ensures Run(s, schedule).hist.arrived == s.hist.arrived
    decreases |schedule|
  {
    if schedule != [] {
      assert schedule[0] in schedule;
      NobodyNewArrives(Step(s, schedule[0]), schedule[1..]);
    }
  }

  /** A sweep that is answering has something left to do. */
  predicate Busy(s: Sys) {
    s.sweep.Answering? && s.sweep.current.None? ==> s.sweep.todo != {}
  }

  lemma StepKeepsBusy(s: Sys, l: Label)
    requires Busy(s)
    ensures Busy(Step(s, l))
  {
  }

  lemma {:induction false} RunKeepsBusy(s: Sys, schedule: seq<Label>)
    requires Busy(s)
    ensures Busy(Run(s, schedule))
    decreases |schedule|
  {
    if schedule != [] {
      StepKeepsBusy(s, schedule[0]);
      RunKeepsBusy(Step(s, schedule[0]), schedule[1..]);
    }
  }

  // ---- Arrivals get through --------------------------------------------------------------

  const NOBODY := Arrivals([], [], map[], map[])

  function ArrivalRank(a: Arrivals): nat {
    4 * |a.passed| + 3 * |a.loaded| + 2 * |a.minted| + |a.inserted|
  }

  lemma InsertGetsOn(s: Sys, id: nat)
    requires id in s.arr.minted
    ensures ArrivalRank(Step(s, Insert(id)).arr) < ArrivalRank(s.arr)
  {
    assert (s.arr.minted - {id}).Keys == s.arr.minted.Keys - {id};
  }

  lemma PushGetsOn(s: Sys, id: nat)
    requires id in s.arr.inserted
    ensures ArrivalRank(Step(s, Push(id)).arr) < ArrivalRank(s.arr)
  {
    assert (s.arr.inserted - {id}).Keys == s.arr.inserted.Keys - {id};
  }

  lemma LoadGetsOn(s: Sys)
    requires s.arr.passed != []
    ensures ArrivalRank(Step(s, Load(0)).arr) < ArrivalRank(s.arr)
  {
  }

  lemma MintGetsOn(s: Sys)
    requires s.arr.loaded != []
    ensures ArrivalRank(Step(s, Mint(0)).arr) < ArrivalRank(s.arr)
  {
  }

  lemma NextArrival(s: Sys) returns (l: Label)
    requires s.arr != NOBODY
    ensures IsArrival(l) && !l.Check? && ArrivalRank(Step(s, l).arr) < ArrivalRank(s.arr)
  {
    if s.arr.passed != [] {
      l := Load(0);
      LoadGetsOn(s);
    } else if s.arr.loaded != [] {
      l := Mint(0);
      MintGetsOn(s);
    } else if s.arr.minted != map[] {
      var id :| id in s.arr.minted;
      l := Insert(id);
      InsertGetsOn(s, id);
    } else {
      assert s.arr.inserted != map[];
      var id :| id in s.arr.inserted;
      l := Push(id);
      PushGetsOn(s, id);
    }
  }

  lemma ArrivalsLeaveOthers(s: Sys, l: Label)
    requires IsArrival(l)
    ensures Step(s, l).life == s.life && Step(s, l).sweep == s.sweep
  {
  }

  lemma {:induction false} FinishArrivals(s: Sys) returns (schedule: seq<Label>)
    requires Inv(s)
    ensures var t := Run(s, schedule); Inv(t) && t.arr == NOBODY && t.life == s.life && t.sweep == s.sweep
    ensures NoCheck(schedule)
    decreases ArrivalRank(s.arr)
  {
    if s.arr == NOBODY {
      schedule := [];
    } else {
      var l := NextArrival(s);
      StepKeepsInv(s, l);
      ArrivalsLeaveOthers(s, l);
      var rest := FinishArrivals(Step(s, l));
      RunPrepend(s, l, rest);
      schedule := [l] + rest;
    }
  }

  // ---- The sweep comes to its end --------------------------------------------------------

  function SweepRank(s: Sys): nat {
    match s.sweep
    case Idle => 0
    case Armed => 3 + 2 * |s.q.live|
    case Timed(_) => 2 + 2 * |s.q.live|
    case Answering(todo, current) => 1 + 2 * |todo| + if current.Some? then 1 else 0
  }

  lemma ExpireGetsOn(s: Sys)
    requires s.sweep.Timed?
    ensures SweepRank(Step(s, Expire)) < SweepRank(s)
  {
    var ids := s.q.Expired(s.sweep.at);
    assert ids <= s.q.live.Keys;
    SubsetSize(ids, s.q.live.Keys);
    assert |s.q.live.Keys| == |s.q.live|;
  }

  lemma SubsetSize(a: set<nat>, b: set<nat>)
    requires a <= b
    ensures |a| <= |b|
  {
    assert b == a + (b - a);
  }

  lemma NextOfSweep(s: Sys) returns (l: Label)
    requires !s.sweep.Idle? && Busy(s)
    ensures IsSweep(l) && SweepRank(Step(s, l)) < SweepRank(s)
  {
    match s.sweep
    case Armed => l := ReadClock;
    case Timed(_) =>
      l := Expire;
      ExpireGetsOn(s);
    case Answering(todo, Some(_)) => l := CountReaper;
    case Answering(todo, None) =>
      var id :| id in todo;
      l := SendReaper(id);
  }

  lemma SweepLeavesOthers(s: Sys, l: Label)
    requires IsSweep(l)
    ensures Step(s, l).life == s.life && Step(s, l).arr == s.arr
  {
  }

  lemma {:induction false} FinishSweep(s: Sys) returns (schedule: seq<Label>)
    requires Inv(s) && Busy(s)
    ensures var t := Run(s, schedule); Inv(t) && t.sweep.Idle? && t.life == s.life && t.arr == s.arr
    ensures NoCheck(schedule)
    decreases SweepRank(s)
  {
    if s.sweep.Idle? {
      schedule := [];
    } else {
      var l := NextOfSweep(s);
      StepKeepsInv(s, l);
      StepKeepsBusy(s, l);
      SweepLeavesOthers(s, l);
      var rest := FinishSweep(Step(s, l));
      RunPrepend(s, l, rest);
      schedule := [l] + rest;
    }
  }

  // ---- The host's completions come to their end ------------------------------------------

  function Unsent(s: Sys): set<nat> {
    set id | id in s.completing && !s.completing[id]
  }

  lemma SendGetsOn(s: Sys, id: nat)
    requires !s.life.Freeing? && id in s.completing && !s.completing[id]
    ensures var t := Step(s, SendHost(id)); |t.completing| == |s.completing| && |Unsent(t)| < |Unsent(s)|
    ensures Step(s, SendHost(id)).life == s.life
  {
    var t := Step(s, SendHost(id));
    assert t.completing.Keys == s.completing.Keys && Unsent(t) == Unsent(s) - {id};
  }

  lemma CountGetsOn(s: Sys, id: nat)
    requires !s.life.Freeing? && id in s.completing && s.completing[id]
    ensures var t := Step(s, CountHost(id)); |t.completing| < |s.completing| && t.life == s.life
  {
    assert (s.completing - {id}).Keys == s.completing.Keys - {id};
  }

  lemma {:induction false} FinishCompleting(s: Sys) returns (schedule: seq<Label>)
    requires Inv(s) && s.life.Stopped?
    ensures var t := Run(s, schedule); Inv(t) && t.completing == map[] && t.life.Stopped?
    ensures NoCheck(schedule)
    decreases |s.completing|, |Unsent(s)|
  {
    if s.completing == map[] {
      schedule := [];
    } else {
      var id :| id in s.completing;
      var l := if s.completing[id] then CountHost(id) else SendHost(id);
      if s.completing[id] {
        CountGetsOn(s, id);
      } else {
        SendGetsOn(s, id);
      }
      StepKeepsInv(s, l);
      var rest := FinishCompleting(Step(s, l));
      RunPrepend(s, l, rest);
      schedule := [l] + rest;
    }
  }

  // ---- The final free drains the table ---------------------------------------------------

  lemma FreeGetsOn(s: Sys, id: nat)
    requires s.life.Freeing? && id in s.q.live
    ensures var t := Step(s, FreeOne(id)); |t.q.live| < |s.q.live| && t.life == s.life
  {
    assert (s.q.live - {id}).Keys == s.q.live.Keys - {id};
  }

  lemma {:induction false} FreeAll(s: Sys) returns (schedule: seq<Label>)
    requires Inv(s) && s.life.Freeing?
    ensures var t := Run(s, schedule); Inv(t) && t.q.live == map[] && t.life.Freeing?
    ensures NoCheck(schedule)
    decreases |s.q.live|
  {
    if s.q.live == map[] {
      schedule := [];
    } else {
      var id :| id in s.q.live;
      FreeGetsOn(s, id);
      StepKeepsInv(s, FreeOne(id));
      var rest := FreeAll(Step(s, FreeOne(id)));
      RunPrepend(s, FreeOne(id), rest);
      schedule := [FreeOne(id)] + rest;
    }
  }

  // ---- All of it -------------------------------------------------------------------------

  lemma RunOne(s: Sys, l: Label)
    ensures Run(s, [l]) == Step(s, l)
  {
    assert [l][1..] == [];
  }

  lemma StopNow(s: Sys)
    requires Inv(s) && s.life.Running? && s.arr == NOBODY && s.sweep.Idle?
    ensures Inv(Step(s, Stop)) && Step(s, Stop).life.Stopped?
  {
    StepKeepsInv(s, Stop);
    assert Quiet(s);
  }

  lemma FreeNow(s: Sys)
    requires Inv(s) && s.life.Stopped? && s.completing == map[]
    ensures Inv(Step(s, Free)) && Step(s, Free).life.Freeing?
  {
    StepKeepsInv(s, Free);
  }

  lemma Settle(s: Sys) returns (schedule: seq<Label>)
    requires Inv(s) && Busy(s)
    ensures var t := Run(s, schedule); Inv(t) && t.life == s.life && t.arr == NOBODY && t.sweep.Idle?
    ensures NoCheck(schedule)
  {
    var a := FinishArrivals(s);
    RunKeepsBusy(s, a);
    var b := FinishSweep(Run(s, a));
    RunAppend(s, a, b);
    schedule := a + b;
  }

  /** A running server stops once arrivals and sweep are through. */
  lemma ReachStop(s: Sys) returns (schedule: seq<Label>)
    requires Inv(s) && Busy(s)
    ensures var t := Run(s, schedule); Inv(t) && !t.life.Running?
    ensures NoCheck(schedule)
  {
    if !s.life.Running? {
      schedule := [];
    } else {
      var a := Settle(s);
      StopNow(Run(s, a));
      RunOne(Run(s, a), Stop);
      RunAppend(s, a, [Stop]);
      schedule := a + [Stop];
    }
  }

  /** A stopped server can be freed once the host's completions are through. */
  lemma ReachFree(s: Sys) returns (schedule: seq<Label>)
    requires Inv(s) && !s.life.Running?
    ensures var t := Run(s, schedule); Inv(t) && t.life.Freeing?
    ensures NoCheck(schedule)
  {
    if s.life.Freeing? {
      schedule := [];
    } else {
      var a := FinishCompleting(s);
      FreeNow(Run(s, a));
      RunOne(Run(s, a), Free);
      RunAppend(s, a, [Free]);
      schedule := a + [Free];
    }
  }

  lemma DrainedMeansAnswered(s: Sys)
    requires Inv(s) && s.life.Freeing? && s.q.live == map[]
    ensures s.hist.arrived == s.q.refused + s.q.nextId - 1
    ensures forall id | 1 <= id < s.q.nextId ::
              id in s.hist.answered && Answer(id, s.hist.answered[id]) in s.hist.sent
  {
    forall id | 1 <= id < s.q.nextId
      ensures id in s.hist.answered && Answer(id, s.hist.answered[id]) in s.hist.sent
    {
      assert PlacesOf(s).Has(id);
      assert StatusSent(s, id);
    }
  }

  lemma WindUp(s: Sys) returns (schedule: seq<Label>)
    requires Inv(s) && Busy(s)
    ensures var t := Run(s, schedule); Inv(t) && t.life.Freeing? && t.q.live == map[]
    ensures NoCheck(schedule)
  {
    var a := ReachStop(s);
    var b := ReachFree(Run(s, a));
    var c := FreeAll(Run(Run(s, a), b));
    RunAppend(s, a, b);
    RunAppend(s, a + b, c);
    schedule := a + b + c;
  }

  /** No reachable state is stuck. Whatever has happened, and with nobody new arriving, the steps still open to
      arrivals, reaper, host and final free wind the server up; and then everyone who ever arrived was refused or has
      been sent a status. */
  lemma CanAlwaysWindUp(before: seq<Label>) returns (after: seq<Label>)
    ensures var s := Run(INIT, before);
            var t := Run(s, after);
            && t.life.Freeing? && t.q.live == map[]
            && t.hist.arrived == s.hist.arrived == t.q.refused + t.q.nextId - 1
            && forall id | 1 <= id < t.q.nextId ::
                 id in t.hist.answered && Answer(id, t.hist.answered[id]) in t.hist.sent
  {
    Reachable(before);
    RunKeepsBusy(INIT, before);
    var s := Run(INIT, before);
    after := WindUp(s);
    NobodyNewArrives(s, after);
    DrainedMeansAnswered(Run(s, after));
  }
}
