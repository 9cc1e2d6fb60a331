/** The call table and one call's response joined: what the client of that call sees, whatever else the server does. */
module Server {
  import opened Bytes
  import opened Channels
  import opened Trailers
  import T = CallTable
  import O = Outbound

  /** The messages that go with the answers of the reaper and of the final free. */
  datatype Texts = Texts(reaper: seq<byte>, shutdown: seq<byte>)

  function StatusBy(party: Party, host: Status, texts: Texts): Status {
    match party
    case Host => host
    case Reaper => Status(GRPC_DEADLINE_EXCEEDED, texts.reaper)
    case Shutdown => Status(GRPC_UNAVAILABLE, texts.shutdown)
  }

  /** The party that took `id` out of the live map, as the table shows it right after. */
  function Remover(t: T.Sys, id: nat): Party {
    if id in t.completing then Host else if id in T.Sweeping(t) then Reaper else Shutdown
  }

  /** What a step of the table from `s` to `t` does to the call `id`: it may take it out of the live map, send its
      status, or both. */
  function Effects(s: T.Sys, t: T.Sys, id: nat, host: Status, texts: Texts): seq<O.Label> {
    (if id in s.q.live && id !in t.q.live then
       [O.Remove(Remover(t, id), StatusBy(Remover(t, id), host, texts))]
     else []) +
    (if T.StatusSent(t, id) && !T.StatusSent(s, id) then [O.SendStatus] else [])
  }

  datatype State = State(
    table: T.Sys,
    call: O.State,
    given: Option<Status>)      // history: the status the host gave when it took the call out

  /** A step of the table, with the status the host would give if it completes the call, as the library received it; or
      a step of the call itself: a host write, a poll of the response body, the client hanging up, or the answered call
      being dropped. */
  datatype Label = Table(l: T.Label, host: Status) | Write(m: Message) | Poll | HangUp | DropCall

  const INIT := State(T.INIT, O.INIT, None)

  /** What a step of the table does to the call. A server that stops drops its runtime, and with it every
      connection task and the response bodies they own. */
  function AfterTable(c: O.State, s: T.Sys, t: T.Sys, id: nat, host: Status, texts: Texts): O.State {
    var c' := O.Run(c, Effects(s, t, id, host, texts));
    if s.life.Running? && !t.life.Running? then O.Step(c', O.HangUp) else c'
  }

  /** The host takes `id` out of the live map by this very step. */
  predicate Completes(t: T.Sys, l: T.Label, id: nat) {
    l == T.Remove(id) && id in t.q.live && !t.life.Freeing?
  }

  function Step(s: State, l: Label, id: nat, texts: Texts): State {
    match l
    case Table(tl, host) =>
      var t := T.Step(s.table, tl);
      State(t, AfterTable(s.call, s.table, t, id, host, texts),
            if Completes(s.table, tl, id) then Some(host) else s.given)
    case Write(m) => if id in s.table.q.live then s.(call := O.Step(s.call, O.Write(m))) else s
    case Poll => s.(call := O.Step(s.call, O.Poll))
    case HangUp => s.(call := O.Step(s.call, O.HangUp))
    case DropCall => if id in s.table.hist.answered then s.(call := O.Step(s.call, O.DropCall)) else s
  }

  function Run(s: State, schedule: seq<Label>, id: nat, texts: Texts): State
    decreases |schedule|
  {
    if schedule == [] then s else Run(Step(s, schedule[0], id, texts), schedule[1..], id, texts)
  }

  predicate TakenOut(t: T.Sys, id: nat) {
    id in t.completing || id in T.Sweeping(t) || id in t.hist.answered
  }

  /** Table and call agree on how far the answering has got, and on who answers with what. */
  ghost predicate Agree(t: T.Sys, c: O.State, id: nat, texts: Texts) {
    && (!c.stage.Live? <==> TakenOut(t, id))
    && (c.stage.Answered? || c.stage.Dropped? <==> T.StatusSent(t, id))
    && (c.stage.Dropped? ==> id in t.hist.answered)
    && (!c.stage.Live? ==>
          && c.stage.party == T.Answerer(t, id)
          && (!c.stage.party.Host? ==> c.stage.st == StatusBy(c.stage.party, c.stage.st, texts)))
  }

  /** How one step of the table can move a call along. */
  ghost predicate Moves(s: T.Sys, t: T.Sys, id: nat) {
    || (TakenOut(t, id) == TakenOut(s, id) && (id in s.q.live ==> id in t.q.live)
        && (T.StatusSent(s, id) ==> T.StatusSent(t, id))
        && (TakenOut(s, id) ==> T.Answerer(t, id) == T.Answerer(s, id)))
    || (id in s.q.live && id !in t.q.live && !TakenOut(s, id) && TakenOut(t, id)
        && T.Answerer(t, id) == Remover(t, id) && (T.StatusSent(t, id) <==> Remover(t, id).Shutdown?))
  }

  lemma TableMoves(s: T.Sys, l: T.Label, id: nat)
    requires T.Located(s)
    ensures Moves(s, T.Step(s, l), id)
    ensures id in s.hist.answered ==> id in T.Step(s, l).hist.answered
  {
    if T.IsArrival(l) {
      ArrivalMoves(s, l, id);
    } else if T.IsHost(l) {
      HostMoves(s, l, id);
    } else if T.IsSweep(l) {
      SweepMoves(s, l, id);
    }
  }

  lemma ArrivalMoves(s: T.Sys, l: T.Label, id: nat)
    requires T.Located(s)
    ensures Moves(s, T.ArrivalStep(s, l), id) && T.ArrivalStep(s, l).hist.answered == s.hist.answered
  {
  }

  lemma HostMoves(s: T.Sys, l: T.Label, id: nat)
    requires T.Located(s)
    ensures Moves(s, T.HostStep(s, l), id)
    ensures id in s.hist.answered ==> id in T.HostStep(s, l).hist.answered
  {
  }

  lemma SweepMoves(s: T.Sys, l: T.Label, id: nat)
    requires T.Located(s)
    ensures Moves(s, T.SweepStep(s, l), id)
    ensures id in s.hist.answered ==> id in T.SweepStep(s, l).hist.answered
  {
  }

  lemma RunsOf(c: O.State, a: O.Label, b: O.Label)
    ensures O.Run(c, []) == c && O.Run(c, [a]) == O.Step(c, a) && O.Run(c, [a] + [b]) == O.Step(O.Step(c, a), b)
    ensures [a] + [] == [a] && [] + [b] == [b]
  {
    assert [a][1..] == [] && ([a] + [b])[1..] == [b] && [b][1..] == [];
    assert O.Run(O.Step(c, a), [b]) == O.Run(O.Step(O.Step(c, a), b), []);
  }

  /** What the effects of a table step do to the call. */
  lemma EffectsRun(c: O.State, s: T.Sys, t: T.Sys, id: nat, host: Status, texts: Texts)
    ensures var removed := id in s.q.live && id !in t.q.live;
            var sent := T.StatusSent(t, id) && !T.StatusSent(s, id);
            var l := O.Remove(Remover(t, id), StatusBy(Remover(t, id), host, texts));
            O.Run(c, Effects(s, t, id, host, texts)) ==
              if removed && sent then O.Step(O.Step(c, l), O.SendStatus)
              else if removed then O.Step(c, l)
              else if sent then O.Step(c, O.SendStatus)
              else c
  {
    RunsOf(c, O.Remove(Remover(t, id), StatusBy(Remover(t, id), host, texts)), O.SendStatus);
    RunsOf(c, O.SendStatus, O.SendStatus);
  }

  lemma TableKeepsAgreement(s: T.Sys, t: T.Sys, c: O.State, id: nat, host: Status, texts: Texts)
    requires Moves(s, t, id) && (id in s.hist.answered ==> id in t.hist.answered)
    requires id in s.q.live ==> !TakenOut(s, id)
    requires O.Inv(c) && Agree(s, c, id, texts)
    ensures Agree(t, AfterTable(c, s, t, id, host, texts), id, texts)
  {
    EffectsRun(c, s, t, id, host, texts);
  }

  /** Who is alive, and where each party's answer comes from: without a running server there is no response body; the
      host answers with what it gave when it completed the call; the final free only ever answers into the void. */
  ghost predicate Sourced(t: T.Sys, c: O.State, given: Option<Status>) {
    (!t.life.Running? ==> !c.bodyAlive) && (!c.stage.Live? ==> Source(t.life.Running?, c, given))
  }

  predicate Source(running: bool, c: O.State, given: Option<Status>)
    requires !c.stage.Live?
  {
    match c.stage.party
    case Host => given == Some(c.stage.st)
    case Reaper => true
    case Shutdown => !running && c.body.phase.Streaming?
  }

  /** Each party takes calls out by its own step only. */
  lemma RemovedBy(s: T.Sys, l: T.Label, id: nat)
    requires T.Located(s) && id in s.q.live && id !in T.Step(s, l).q.live
    ensures match Remover(T.Step(s, l), id)
            case Host => Completes(s, l, id)
            case Reaper => l == T.Expire
            case Shutdown => s.life.Freeing?
  {
    assert id !in s.completing && id !in T.Sweeping(s);
    ArrivalKeepsLive(s, l, id);
  }

  lemma ArrivalKeepsLive(s: T.Sys, l: T.Label, id: nat)
    requires id in s.q.live
    ensures T.IsArrival(l) ==> id in T.Step(s, l).q.live
  {
  }

  lemma LifeGoesOn(s: T.Sys, l: T.Label)
    ensures !s.life.Running? ==> !T.Step(s, l).life.Running?
    ensures l.Remove? ==> T.Step(s, l).life == s.life
  {
  }

  lemma CompletesOnce(s: T.Sys, l: T.Label, id: nat)
    requires T.Located(s) && Completes(s, l, id)
    ensures var t := T.Step(s, l); id !in t.q.live && Remover(t, id) == Host
  {
    var t := T.Step(s, l);
    assert t.completing == s.completing[id := false];
  }

  /** What a step of the table may do to the history of the host's status. */
  ghost predicate Attributed(s: T.Sys, t: T.Sys, id: nat, host: Status, given: Option<Status>, given': Option<Status>) {
    && (!s.life.Running? ==> !t.life.Running?)
    && if id in s.q.live && id !in t.q.live then
         match Remover(t, id)
         case Host => given' == Some(host)
         case Reaper => true
         case Shutdown => !s.life.Running?
       else given' == given
  }

  lemma StepAttributes(s: T.Sys, l: T.Label, id: nat, host: Status, given: Option<Status>)
    requires T.Located(s)
    ensures Attributed(s, T.Step(s, l), id, host, given, if Completes(s, l, id) then Some(host) else given)
  {
    LifeGoesOn(s, l);
    if Completes(s, l, id) {
      CompletesOnce(s, l, id);
    } else if id in s.q.live && id !in T.Step(s, l).q.live {
      RemovedBy(s, l, id);
    }
  }

  lemma TableKeepsSources(
      s: T.Sys, t: T.Sys, c: O.State, id: nat, host: Status, texts: Texts,
      given: Option<Status>, given': Option<Status>)
    requires O.Inv(c) && Sourced(s, c, given) && Attributed(s, t, id, host, given, given')
    requires c.stage.Live? <==> !TakenOut(s, id)
    requires id in s.q.live ==> !TakenOut(s, id)
    ensures Sourced(t, AfterTable(c, s, t, id, host, texts), given')
  {
    EffectsRun(c, s, t, id, host, texts);
  }

  ghost predicate Inv(s: State, id: nat, texts: Texts) {
    T.Inv(s.table) && O.Inv(s.call) && Agree(s.table, s.call, id, texts) && Sourced(s.table, s.call, s.given)
  }

  lemma LiveIsNotTaken(t: T.Sys, id: nat)
    requires T.Located(t) && id in t.q.live
    ensures !TakenOut(t, id)
  {
  }

  lemma AfterTableKeepsInv(c: O.State, s: T.Sys, t: T.Sys, id: nat, host: Status, texts: Texts)
    requires O.Inv(c)
    ensures O.Inv(AfterTable(c, s, t, id, host, texts))
  {
    var effects := Effects(s, t, id, host, texts);
    O.RunKeepsInv(c, effects);
    O.StepKeepsInv(O.Run(c, effects), O.HangUp);
  }

  lemma TableStepKeepsInv(s: State, tl: T.Label, id: nat, host: Status, texts: Texts)
    requires Inv(s, id, texts)
    ensures Inv(Step(s, Table(tl, host), id, texts), id, texts)
  {
    var t := T.Step(s.table, tl);
    T.StepKeepsInv(s.table, tl);
    TableMoves(s.table, tl, id);
    if id in s.table.q.live {
      LiveIsNotTaken(s.table, id);
    }
    TableKeepsAgreement(s.table, t, s.call, id, host, texts);
    StepAttributes(s.table, tl, id, host, s.given);
    TableKeepsSources(s.table, t, s.call, id, host, texts, s.given, Step(s, Table(tl, host), id, texts).given);
    AfterTableKeepsInv(s.call, s.table, t, id, host, texts);
  }

  /** The call's own steps change neither its answer nor the table. */
  lemma CallStepKeepsAgreement(t: T.Sys, c: O.State, given: Option<Status>, l: O.Label, id: nat, texts: Texts)
    requires O.Inv(c) && Agree(t, c, id, texts) && Sourced(t, c, given)
    requires l.Write? || l.Poll? || l.HangUp? || (l.DropCall? && id in t.hist.answered)
    ensures O.Inv(O.Step(c, l)) && Agree(t, O.Step(c, l), id, texts) && Sourced(t, O.Step(c, l), given)
  {
    O.StepKeepsInv(c, l);
  }

  lemma StepKeepsInv(s: State, l: Label, id: nat, texts: Texts)
    requires Inv(s, id, texts)
    ensures Inv(Step(s, l, id, texts), id, texts)
  {
    match l
    case Table(tl, host) => TableStepKeepsInv(s, tl, id, host, texts);
    case Write(m) => CallStepKeepsAgreement(s.table, s.call, s.given, O.Write(m), id, texts);
    case Poll => CallStepKeepsAgreement(s.table, s.call, s.given, O.Poll, id, texts);
    case HangUp => CallStepKeepsAgreement(s.table, s.call, s.given, O.HangUp, id, texts);
    case DropCall =>
      if id in s.table.hist.answered {
        CallStepKeepsAgreement(s.table, s.call, s.given, O.DropCall, id, texts);
      }
  }

  lemma {:induction false} RunKeepsInv(s: State, schedule: seq<Label>, id: nat, texts: Texts)
    requires Inv(s, id, texts)
    ensures Inv(Run(s, schedule, id, texts), id, texts)
    decreases |schedule|
  {
    if schedule != [] {
      StepKeepsInv(s, schedule[0], id, texts);
      RunKeepsInv(Step(s, schedule[0], id, texts), schedule[1..], id, texts);
    }
  }

  lemma InitAgrees(id: nat, texts: Texts)
    ensures Agree(T.INIT, O.INIT, id, texts) && Sourced(T.INIT, O.INIT, None)
  {
    assert T.INIT.completing == map[] && T.Sweeping(T.INIT) == {} && T.INIT.hist.answered == map[];
  }

  lemma InitHoldsInv(id: nat, texts: Texts)
    ensures Inv(INIT, id, texts)
  {
    T.InitHoldsInv();
    O.InitHoldsInv();
    InitAgrees(id, texts);
  }

  lemma Reachable(schedule: seq<Label>, id: nat, texts: Texts)
    ensures Inv(Run(INIT, schedule, id, texts), id, texts)
  {
    InitHoldsInv(id, texts);
    RunKeepsInv(INIT, schedule, id, texts);
  }

  /** What the connection has been given for the call `id`, against what the table says of it. */
  ghost predicate ResponseMatches(s: State, id: nat) {
    var c := s.call;
    if c.body.phase.Done? then
      && id in s.table.hist.answered && c.stage.Dropped? && c.stage.party == s.table.hist.answered[id]
      && c.emitted == O.DataFrames(c.accepted) + [O.TrailersFrame(TrailersOf(c.stage.st))]
      && match c.stage.party
         case Host => s.given == Some(c.stage.st)
         case Reaper => TrailersOf(c.stage.st).grpcStatus == 4
         case Shutdown => false
    else
      |c.emitted| <= |c.accepted| && c.emitted == O.DataFrames(c.accepted[..|c.emitted|])
  }

  lemma InvMatches(s: State, id: nat, texts: Texts)
    requires Inv(s, id, texts)
    ensures ResponseMatches(s, id)
  {
    assert s.call.accepted[..|s.call.accepted|] == s.call.accepted;
  }

  /** For every call and every interleaving of the whole table with that call's writes, polls and hang-up: the response
      is accepted writes in order; it ends in trailers only after all of them and only once the table has the call down
      as answered. Those trailers carry the status that the host gave in the step that took the call out, or
      DEADLINE_EXCEEDED if the reaper took it; never the answer of the final free. */
  lemma ClientSeesTheAnswer(schedule: seq<Label>, id: nat, texts: Texts)
    ensures ResponseMatches(Run(INIT, schedule, id, texts), id)
  {
    Reachable(schedule, id, texts);
    InvMatches(Run(INIT, schedule, id, texts), id, texts);
  }

  lemma WriteOutcome(s: State, id: nat, texts: Texts, m: Message)
    requires Inv(s, id, texts)
    ensures var t := Step(s, Write(m), id, texts);
            && t.table == s.table && t.call.emitted == s.call.emitted
            && t.call.accepted ==
               if id in s.table.q.live && s.call.bodyAlive && |s.call.body.rx.queue| < 8 then s.call.accepted + [m]
               else s.call.accepted
  {
    if id in s.table.q.live {
      LiveIsNotTaken(s.table, id);
    }
  }

  /** A host write is accepted exactly while the table has the call live, its client is there and fewer than 8 writes
      are waiting. */
  lemma LiveCallTakesWrites(schedule: seq<Label>, id: nat, texts: Texts, m: Message)
    ensures var s := Run(INIT, schedule, id, texts);
            var t := Step(s, Write(m), id, texts);
            && t.table == s.table && t.call.emitted == s.call.emitted
            && t.call.accepted ==
               if id in s.table.q.live && s.call.bodyAlive && |s.call.body.rx.queue| < 8 then s.call.accepted + [m]
               else s.call.accepted
  {
    Reachable(schedule, id, texts);
    WriteOutcome(Run(INIT, schedule, id, texts), id, texts, m);
  }

  // ---- Every answered client can be served while the server runs -------------------------

  /** How many steps of the table the answering of `id` still needs. */
  function TableRank(t: T.Sys, id: nat): nat {
    if id in t.hist.answered then 0
    else if id in t.completing then (if t.completing[id] then 1 else 2)
    else if t.sweep.Answering? && t.sweep.current.Some? then (if t.sweep.current == Some(id) then 1 else 3)
    else 2
  }

  /** Which status the host offers does not matter once the call is taken out. */
  const ANY_STATUS := Status(0, [])

  /** The step of whichever party is next to act for a call that was taken out. */
  function NextLabel(s: State, id: nat): Label {
    var t := s.table;
    if id in t.hist.answered then (if s.call.stage.Dropped? then Poll else DropCall)
    else if id in t.completing then Table(if t.completing[id] then T.CountHost(id) else T.SendHost(id), ANY_STATUS)
    else Table(if t.sweep.Answering? && t.sweep.current.Some? then T.CountReaper else T.SendReaper(id), ANY_STATUS)
  }

  lemma HostAdvances(t: T.Sys, id: nat)
    requires T.Located(t) && t.life.Running? && id in t.completing
    ensures var t' := T.Step(t, if t.completing[id] then T.CountHost(id) else T.SendHost(id));
            TableRank(t', id) < TableRank(t, id) && t'.life == t.life && t'.q.live == t.q.live
  {
    assert id !in t.hist.answered;
  }

  lemma SweepAdvances(t: T.Sys, id: nat)
    requires T.Located(t) && id in T.Sweeping(t)
    ensures var t' := T.Step(t, if t.sweep.current.Some? then T.CountReaper else T.SendReaper(id));
            TableRank(t', id) < TableRank(t, id) && t'.life == t.life && t'.q.live == t.q.live
  {
    assert id !in t.hist.answered && id !in t.completing;
  }

  lemma NextAdvances(s: State, id: nat, texts: Texts)
    requires Inv(s, id, texts) && s.call.bodyAlive && !s.call.stage.Live? && id !in s.table.hist.answered
    ensures var t := Step(s, NextLabel(s, id), id, texts);
            && TableRank(t.table, id) < TableRank(s.table, id)
            && t.call.bodyAlive && !t.call.stage.Live? && t.call.accepted == s.call.accepted
            && t.call.stage.st == s.call.stage.st
  {
    if id in s.table.completing {
      HostAdvances(s.table, id);
    } else {
      SweepAdvances(s.table, id);
    }
    var l := NextLabel(s, id);
    EffectsRun(s.call, s.table, T.Step(s.table, l.l), id, l.host, texts);
  }

  /** Once the table is done with the call, dropping it and polling the body get closer to the trailers. */
  lemma CallAdvances(s: State, id: nat, texts: Texts)
    requires Inv(s, id, texts) && s.call.bodyAlive && id in s.table.hist.answered && !s.call.body.phase.Done?
    ensures var c, c' := s.call, Step(s, NextLabel(s, id), id, texts).call;
            && c'.bodyAlive && !c'.stage.Live? && c'.accepted == c.accepted && c'.stage.st == c.stage.st
            && if !c.stage.Dropped? then c'.stage.Dropped?
               else
                 && c'.stage.Dropped? && O.Rank(c'.body.phase) <= O.Rank(c.body.phase)
                 && (O.Rank(c'.body.phase) == O.Rank(c.body.phase) ==> |c'.body.rx.queue| < |c.body.rx.queue|)
  {
  }

  /** How far a call that was taken out is from its trailers. */
  function DropRank(c: O.State): nat {
    if c.stage.Dropped? then 0 else 1
  }

  /** `t` is the same answer closer to its trailers. */
  predicate Closer(t: State, s: State, id: nat) {
    && t.call.bodyAlive && !t.call.stage.Live? && !s.call.stage.Live?
    && t.call.accepted == s.call.accepted && t.call.stage.st == s.call.stage.st
    && (TableRank(t.table, id) < TableRank(s.table, id)
        || (TableRank(t.table, id) == TableRank(s.table, id)
            && (DropRank(t.call) < DropRank(s.call)
                || (DropRank(t.call) == DropRank(s.call)
                    && (O.Rank(t.call.body.phase) < O.Rank(s.call.body.phase)
                        || (t.call.body.phase == s.call.body.phase
                            && |t.call.body.rx.queue| < |s.call.body.rx.queue|))))))
  }

  lemma GetsCloser(s: State, id: nat, texts: Texts)
    requires Inv(s, id, texts) && s.call.bodyAlive && !s.call.stage.Live? && !s.call.body.phase.Done?
    ensures Closer(Step(s, NextLabel(s, id), id, texts), s, id)
  {
    if id !in s.table.hist.answered {
      NextAdvances(s, id, texts);
    } else {
      CallAdvances(s, id, texts);
    }
  }

  lemma DoneIsServed(s: State, id: nat, texts: Texts)
    requires Inv(s, id, texts) && s.call.body.phase.Done?
    ensures id in s.table.hist.answered && !s.call.stage.Live?
    ensures s.call.emitted == O.DataFrames(s.call.accepted) + [O.TrailersFrame(TrailersOf(s.call.stage.st))]
  {
    InvMatches(s, id, texts);
  }

  lemma RunPrepend(s: State, l: Label, more: seq<Label>, id: nat, texts: Texts)
    ensures Run(s, [l] + more, id, texts) == Run(Step(s, l, id, texts), more, id, texts)
  {
    assert ([l] + more)[1..] == more;
  }

  /** What the host or the reaper does once it has taken the call out, and what the connection does. */
  predicate Answering(l: Label, id: nat) {
    || l.Poll? || l.DropCall?
    || (l.Table? && l.l in {T.SendHost(id), T.CountHost(id), T.SendReaper(id), T.CountReaper})
  }

  /** While the server runs, no answered client is left hanging: from every reachable state, a call that any party has
      taken out and whose response body is still there can be taken to its trailers by the parties' own next steps,
      with every accepted write before them. */
  lemma {:induction false} AnswerCanArrive(s: State, id: nat, texts: Texts) returns (rest: seq<Label>)
    requires Inv(s, id, texts) && s.call.bodyAlive && !s.call.stage.Live?
    ensures var t := Run(s, rest, id, texts);
            && id in t.table.hist.answered
            && t.call.emitted == O.DataFrames(s.call.accepted) + [O.TrailersFrame(TrailersOf(s.call.stage.st))]
    ensures forall l | l in rest :: Answering(l, id)
    decreases TableRank(s.table, id), DropRank(s.call), O.Rank(s.call.body.phase), |s.call.body.rx.queue|
  {
    if s.call.body.phase.Done? {
      rest := [];
      DoneIsServed(s, id, texts);
    } else {
      var l := NextLabel(s, id);
      StepKeepsInv(s, l, id, texts);
      GetsCloser(s, id, texts);
      var more := AnswerCanArrive(Step(s, l, id, texts), id, texts);
      RunPrepend(s, l, more, id, texts);
      rest := [l] + more;
    }
  }

  lemma NoAnsweredClientLeftHanging(schedule: seq<Label>, id: nat, texts: Texts) returns (rest: seq<Label>)
    requires var s := Run(INIT, schedule, id, texts); s.call.bodyAlive && TakenOut(s.table, id)
    ensures var s := Run(INIT, schedule, id, texts);
            var t := Run(s, rest, id, texts);
            && !s.call.stage.Live? && id in t.table.hist.answered
            && t.call.emitted == O.DataFrames(s.call.accepted) + [O.TrailersFrame(TrailersOf(s.call.stage.st))]
    ensures forall l | l in rest :: Answering(l, id)
  {
    Reachable(schedule, id, texts);
    rest := AnswerCanArrive(Run(INIT, schedule, id, texts), id, texts);
  }

  // ---- A call nobody completes -----------------------------------------------------------

  /** No deadline is in force, and nobody but the final free has taken the call out. */
  ghost predicate Forgotten(s: State, id: nat) {
    && s.table.sweep.Idle? && s.table.q.deadlineMs == 0
    && (id in s.table.q.live || (!s.call.stage.Live? && s.call.stage.party.Shutdown?))
  }

  /** The host does not complete the call and leaves the deadline at 0. */
  predicate Neglects(l: Label, id: nat) {
    l.Table? ==> !(l.l == T.Remove(id)) && (l.l.SetDeadline? ==> l.l.deadline == 0)
  }

  lemma IdleExpireDoesNothing(t: T.Sys)
    requires t.sweep.Idle?
    ensures T.Step(t, T.Expire) == t
  {
  }

  lemma AnsweredByShutdown(c: O.State, s: T.Sys, t: T.Sys, id: nat, host: Status, texts: Texts)
    requires id in s.q.live && id !in t.q.live && Remover(t, id).Shutdown? && c.stage.Live?
    ensures var c' := AfterTable(c, s, t, id, host, texts); !c'.stage.Live? && c'.stage.party.Shutdown?
  {
    EffectsRun(c, s, t, id, host, texts);
  }

  lemma PartyStays(s: State, l: Label, id: nat, texts: Texts)
    requires !s.call.stage.Live?
    ensures var t := Step(s, l, id, texts); !t.call.stage.Live? && t.call.stage.party == s.call.stage.party
  {
    if l.Table? {
      EffectsRun(s.call, s.table, T.Step(s.table, l.l), id, l.host, texts);
    }
  }

  lemma StepStaysForgotten(s: State, l: Label, id: nat, texts: Texts)
    requires Inv(s, id, texts) && Forgotten(s, id) && Neglects(l, id)
    ensures Forgotten(Step(s, l, id, texts), id)
  {
    if l.Table? {
      var t := T.Step(s.table, l.l);
      T.IdleStaysIdle(s.table, l.l);
      if id in s.table.q.live && id !in t.q.live {
        IdleExpireDoesNothing(s.table);
        LiveIsNotTaken(s.table, id);
        RemovedBy(s.table, l.l, id);
        AnsweredByShutdown(s.call, s.table, t, id, l.host, texts);
      }
    }
    if !s.call.stage.Live? {
      PartyStays(s, l, id, texts);
    }
  }

  lemma ForgottenIsNotDone(s: State, id: nat, texts: Texts)
    requires Inv(s, id, texts) && Forgotten(s, id)
    ensures !s.call.body.phase.Done?
  {
    if id in s.table.q.live {
      LiveIsNotTaken(s.table, id);
    }
  }

  lemma {:induction false} RunStaysForgotten(s: State, schedule: seq<Label>, id: nat, texts: Texts)
    requires Inv(s, id, texts) && Forgotten(s, id) && forall l | l in schedule :: Neglects(l, id)
    ensures Inv(Run(s, schedule, id, texts), id, texts) && Forgotten(Run(s, schedule, id, texts), id)
    decreases |schedule|
  {
    if schedule != [] {
      assert schedule[0] in schedule;
      StepKeepsInv(s, schedule[0], id, texts);
      StepStaysForgotten(s, schedule[0], id, texts);
      RunStaysForgotten(Step(s, schedule[0], id, texts), schedule[1..], id, texts);
    }
  }

  /** A live call that its host never completes, with no deadline to catch it, gets no trailers from anyone: not from
      the reaper, and not from the final free. */
  lemma NeglectedClientHangs(before: seq<Label>, after: seq<Label>, id: nat, texts: Texts)
    requires var t := Run(INIT, before, id, texts).table; id in t.q.live && t.sweep.Idle? && t.q.deadlineMs == 0
    requires forall l | l in after :: Neglects(l, id)
    ensures !Run(Run(INIT, before, id, texts), after, id, texts).call.body.phase.Done?
  {
    Reachable(before, id, texts);
    var s := Run(INIT, before, id, texts);
    RunStaysForgotten(s, after, id, texts);
    ForgottenIsNotDone(Run(s, after, id, texts), id, texts);
  }

  // ---- And none once it has stopped ------------------------------------------------------

  lemma NoBodyNoStep(s: State, l: Label, id: nat, texts: Texts)
    requires !s.call.bodyAlive
    ensures var t := Step(s, l, id, texts);
            !t.call.bodyAlive && t.call.emitted == s.call.emitted && t.call.body.phase == s.call.body.phase
  {
    if l.Table? {
      EffectsRun(s.call, s.table, T.Step(s.table, l.l), id, l.host, texts);
    }
  }

  lemma {:induction false} NoBodyIsSilent(s: State, schedule: seq<Label>, id: nat, texts: Texts)
    requires !s.call.bodyAlive
    ensures var t := Run(s, schedule, id, texts);
            t.call.emitted == s.call.emitted && t.call.body.phase == s.call.body.phase
    decreases |schedule|
  {
    if schedule != [] {
      NoBodyNoStep(s, schedule[0], id, texts);
      NoBodyIsSilent(Step(s, schedule[0], id, texts), schedule[1..], id, texts);
    }
  }

  /** A client that hung up is given nothing more. */
  lemma HungUpIsSilent(s: State, schedule: seq<Label>, id: nat, texts: Texts)
    ensures Run(Step(s, HangUp, id, texts), schedule, id, texts).call.emitted == s.call.emitted
  {
    NoBodyIsSilent(Step(s, HangUp, id, texts), schedule, id, texts);
  }

  lemma StoppedHasNoBody(s: State, id: nat, texts: Texts)
    requires Inv(s, id, texts) && !s.table.life.Running?
    ensures !s.call.bodyAlive
  {
  }

  lemma StoppedServesNobody(s: State, after: seq<Label>, id: nat, texts: Texts)
    requires Inv(s, id, texts) && !s.table.life.Running?
    ensures var t := Run(s, after, id, texts);
            && !s.call.bodyAlive && t.call.emitted == s.call.emitted
            && (t.call.body.phase.Done? <==> s.call.body.phase.Done?) && ResponseMatches(t, id)
  {
    StoppedHasNoBody(s, id, texts);
    NoBodyIsSilent(s, after, id, texts);
    RunKeepsInv(s, after, id, texts);
    InvMatches(Run(s, after, id, texts), id, texts);
  }

  /** The final free comes too late for any client. Once the server has stopped no response body is left, so whatever
      host and free still do, a client has its trailers in the end if and only if it had them when the server
      stopped. */
  lemma FreeReachesNoClient(before: seq<Label>, after: seq<Label>, id: nat, texts: Texts)
    requires !Run(INIT, before, id, texts).table.life.Running?
    ensures var s := Run(INIT, before, id, texts);
            var t := Run(s, after, id, texts);
            && !s.call.bodyAlive && t.call.emitted == s.call.emitted
            && (t.call.body.phase.Done? <==> s.call.body.phase.Done?)
            && (id in t.table.hist.answered && t.table.hist.answered[id].Shutdown? ==> !t.call.body.phase.Done?)
  {
    Reachable(before, id, texts);
    StoppedServesNobody(Run(INIT, before, id, texts), after, id, texts);
  }
}
