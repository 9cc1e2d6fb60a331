/** How far the pending limit can be overshot: the full-queue check and the push are separate lock regions. */
module PendingLimit {
  import opened CallTable

  /** Arrivals past the full-queue check and not yet on `pending`. */
  function InFlight(s: Sys): nat {
    |s.arr.passed| + |s.arr.loaded| + |s.arr.minted| + |s.arr.inserted|
  }

  /** At most `k` arrivals are in flight at every moment of the run. */
  predicate AtMostInFlight(s: Sys, schedule: seq<Label>, k: nat)
    decreases |schedule|
  {
    InFlight(s) <= k && (schedule != [] ==> AtMostInFlight(Step(s, schedule[0]), schedule[1..], k))
  }

  predicate LimitsWithin(schedule: seq<Label>, limit: nat) {
    forall l | l in schedule && l.SetLimit? :: l.limit <= limit
  }

  ghost predicate WithinOvershoot(s: Sys, limit: nat, k: nat) {
    s.q.maxPending <= limit && |s.q.pending| + InFlight(s) <= limit - 1 + k
  }

  lemma ArrivalOvershoot(s: Sys, l: Label, limit: nat, k: nat)
    requires WithinOvershoot(s, limit, k) && InFlight(ArrivalStep(s, l)) <= k
    ensures WithinOvershoot(ArrivalStep(s, l), limit, k)
  {
    match l
    case Insert(id) =>
      if id in s.arr.minted {
        assert (s.arr.minted - {id}).Keys == s.arr.minted.Keys - {id};
      }
    case Push(id) =>
      if id in s.arr.inserted {
        assert (s.arr.inserted - {id}).Keys == s.arr.inserted.Keys - {id};
      }
    case _ =>
  }

  lemma OthersShortenTheLine(s: Sys, l: Label, limit: nat)
    requires !IsArrival(l) && s.q.maxPending <= limit && (l.SetLimit? ==> l.limit <= limit)
    ensures |Step(s, l).q.pending| <= |s.q.pending| && Step(s, l).q.maxPending <= limit
  {
  }

  lemma StepOvershoot(s: Sys, l: Label, limit: nat, k: nat)
    requires WithinOvershoot(s, limit, k) && InFlight(Step(s, l)) <= k
    requires l.SetLimit? ==> l.limit <= limit
    ensures WithinOvershoot(Step(s, l), limit, k)
  {
    if IsArrival(l) {
      ArrivalOvershoot(s, l, limit, k);
    } else {
      OthersKeepStamps(s, l);
      OthersShortenTheLine(s, l, limit);
    }
  }

  lemma {:induction false} RunOvershoot(s: Sys, schedule: seq<Label>, limit: nat, k: nat)
    requires WithinOvershoot(s, limit, k) && AtMostInFlight(s, schedule, k) && LimitsWithin(schedule, limit)
    ensures WithinOvershoot(Run(s, schedule), limit, k)
    decreases |schedule|
  {
    if schedule != [] {
      assert schedule[0] in schedule;
      StepOvershoot(s, schedule[0], limit, k);
      RunOvershoot(Step(s, schedule[0]), schedule[1..], limit, k);
    }
  }

  /** With at most `k` arrivals in flight at any moment and no limit above `limit` ever configured, waiting and
      in-flight calls together never exceed limit - 1 + k. */
  lemma OvershootIsBounded(schedule: seq<Label>, limit: nat, k: nat)
    requires limit >= INIT.q.maxPending && LimitsWithin(schedule, limit) && AtMostInFlight(INIT, schedule, k)
    ensures var s := Run(INIT, schedule); |s.q.pending| + InFlight(s) <= limit - 1 + k
  {
    RunOvershoot(INIT, schedule, limit, k);
  }

  /** Arrivals handled one at a time never exceed the limit. */
  lemma SequentialArrivalsRespectLimit(schedule: seq<Label>, limit: nat)
    requires limit >= INIT.q.maxPending && LimitsWithin(schedule, limit) && AtMostInFlight(INIT, schedule, 1)
    ensures |Run(INIT, schedule).q.pending| <= limit
  {
    OvershootIsBounded(schedule, limit, 1);
  }

  // ---- The bound is reached --------------------------------------------------------------

  lemma {:induction false} RunConcat(s: Sys, a: seq<Label>, b: seq<Label>, k: nat)
    requires AtMostInFlight(s, a, k) && AtMostInFlight(Run(s, a), b, k)
    ensures Run(s, a + b) == Run(Run(s, a), b) && AtMostInFlight(s, a + b, k)
    decreases |a|
  {
    if a == [] {
      assert a + b == b;
    } else {
      assert (a + b)[1..] == a[1..] + b;
      RunConcat(Step(s, a[0]), a[1..], b, k);
    }
  }

  /** Running, `n` arrivals past the check and none further along. */
  ghost predicate AtDoor(s: Sys, n: nat) {
    s.life.Running? && |s.arr.passed| == n && s.arr.loaded == [] && s.arr.minted == map[] && s.arr.inserted == map[]
  }

  predicate OnlyArrivals(schedule: seq<Label>) {
    forall l | l in schedule :: IsArrival(l)
  }

  lemma CheckOne(s: Sys, n: nat)
    requires AtDoor(s, n) && !s.q.IsFull()
    ensures var t := Step(s, Check([])); AtDoor(t, n + 1) && t.q == s.q
  {
  }

  /** One arrival goes all the way from the check to the queue, in four regions. */
  lemma PassOne(s: Sys, n: nat, k: nat) returns (schedule: seq<Label>)
    requires AtDoor(s, n) && 1 <= n <= k
    ensures var t := Run(s, schedule);
            AtDoor(t, n - 1) && |t.q.pending| == |s.q.pending| + 1 && t.q.maxPending == s.q.maxPending
    ensures AtMostInFlight(s, schedule, k) && OnlyArrivals(schedule)
  {
    var id := s.q.nextId;
    var s1 := Step(s, Load(0));
    assert |s1.arr.loaded| == 1;
    var s2 := Step(s1, Mint(0));
    assert s2.arr.loaded == [] && s2.arr.minted.Keys == {id};
    var s3 := Step(s2, Insert(id));
    assert s3.arr.minted == map[] && s3.arr.inserted.Keys == {id};
    var s4 := Step(s3, Push(id));
    assert s4.arr.inserted == map[];
    schedule := [Load(0), Mint(0), Insert(id), Push(id)];
    FourSteps(s, Load(0), Mint(0), Insert(id), Push(id), k);
  }

  lemma FourSteps(s: Sys, a: Label, b: Label, c: Label, d: Label, k: nat)
    requires InFlight(s) <= k && InFlight(Step(s, a)) <= k && InFlight(Step(Step(s, a), b)) <= k
    requires InFlight(Step(Step(Step(s, a), b), c)) <= k && InFlight(Step(Step(Step(Step(s, a), b), c), d)) <= k
    ensures Run(s, [a, b, c, d]) == Step(Step(Step(Step(s, a), b), c), d)
    ensures AtMostInFlight(s, [a, b, c, d], k)
  {
    assert [a, b, c, d][1..] == [b, c, d] && [b, c, d][1..] == [c, d] && [c, d][1..] == [d] && [d][1..] == [];
    var s3 := Step(Step(Step(s, a), b), c);
    assert Run(s3, [d]) == Run(Step(s3, d), []) && AtMostInFlight(s3, [d], k);
    assert Run(Step(Step(s, a), b), [c, d]) == Run(s3, [d]) && AtMostInFlight(Step(Step(s, a), b), [c, d], k);
    assert Run(Step(s, a), [b, c, d]) == Run(Step(Step(s, a), b), [c, d]) && AtMostInFlight(Step(s, a), [b, c, d], k);
  }

  /** `n` arrivals at the door all get through. */
  lemma {:induction false} PassAll(s: Sys, n: nat, k: nat) returns (schedule: seq<Label>)
    requires AtDoor(s, n) && n <= k
    ensures var t := Run(s, schedule);
            AtDoor(t, 0) && |t.q.pending| == |s.q.pending| + n && t.q.maxPending == s.q.maxPending
    ensures AtMostInFlight(s, schedule, k) && OnlyArrivals(schedule)
    decreases n
  {
    if n == 0 {
      schedule := [];
    } else {
      var first := PassOne(s, n, k);
      var rest := PassAll(Run(s, first), n - 1, k);
      RunConcat(s, first, rest, k);
      schedule := first + rest;
    }
  }

  /** As long as the queue is not full, any number of arrivals can be past the check at once. */
  lemma {:induction false} CheckMany(s: Sys, n: nat, more: nat, k: nat) returns (schedule: seq<Label>)
    requires AtDoor(s, n) && !s.q.IsFull() && n + more <= k
    ensures var t := Run(s, schedule); AtDoor(t, n + more) && t.q == s.q
    ensures AtMostInFlight(s, schedule, k) && OnlyArrivals(schedule)
    decreases more
  {
    if more == 0 {
      schedule := [];
    } else {
      CheckOne(s, n);
      var rest := CheckMany(Step(s, Check([])), n + 1, more - 1, k);
      schedule := [Check([])] + rest;
      assert schedule[1..] == rest;
    }
  }

  /** One arrival at a time fills the queue up to `target` waiting calls. */
  lemma {:induction false} FillTo(s: Sys, target: nat, k: nat) returns (schedule: seq<Label>)
    requires AtDoor(s, 0) && k >= 1 && |s.q.pending| <= target <= s.q.maxPending
    ensures var t := Run(s, schedule); AtDoor(t, 0) && |t.q.pending| == target && t.q.maxPending == s.q.maxPending
    ensures AtMostInFlight(s, schedule, k) && OnlyArrivals(schedule)
    decreases target - |s.q.pending|
  {
    if |s.q.pending| == target {
      schedule := [];
    } else {
      var a := CheckMany(s, 0, 1, k);
      var b := PassOne(Run(s, a), 1, k);
      RunConcat(s, a, b, k);
      var c := FillTo(Run(s, a + b), target, k);
      RunConcat(s, a + b, c, k);
      schedule := a + b + c;
    }
  }

  /** The bound cannot be improved: for every limit and every k, some run from a fresh queue with that limit, with never
      more than k arrivals in flight, ends with limit - 1 + k calls waiting. For k > 1 that is above the limit. */
  lemma OvershootIsReached(limit: nat, k: nat) returns (schedule: seq<Label>)
    requires limit >= 1 && k >= 1
    ensures var s := Step(INIT, SetLimit(limit));
            && s.q.maxPending == limit && OnlyArrivals(schedule) && AtMostInFlight(s, schedule, k)
            && |Run(s, schedule).q.pending| == limit - 1 + k
  {
    var s := Step(INIT, SetLimit(limit));
    var fill := FillTo(s, limit - 1, k);
    var crowd := CheckMany(Run(s, fill), 0, k, k);
    RunConcat(s, fill, crowd, k);
    var through := PassAll(Run(s, fill + crowd), k, k);
    RunConcat(s, fill + crowd, through, k);
    schedule := fill + crowd + through;
  }

  // ---- The counters can be off -----------------------------------------------------------

  lemma {:induction false} ArrivalsLeaveTheRest(s: Sys, schedule: seq<Label>)
    requires OnlyArrivals(schedule)
    ensures var t := Run(s, schedule);
            && t.sweep == s.sweep && t.completing == s.completing && t.hist.freed == s.hist.freed
            && t.q.accepted == s.q.accepted
    decreases |schedule|
  {
    if schedule != [] {
      assert schedule[0] in schedule;
      ArrivalsLeaveTheRest(Step(s, schedule[0]), schedule[1..]);
    }
  }

  /** The counters do come apart: for every n a run of arrivals ends, with nothing in flight, n calls short of
      accepted = completed + reaped + live. */
  lemma CountersComeApart(n: nat) returns (schedule: seq<Label>)
    ensures var s := Run(INIT, schedule);
            Quiet(s) && s.completing == map[] && s.q.accepted + n == s.q.completed + s.q.reaped + |s.q.live|
  {
    var door := CheckMany(INIT, 0, n, n);
    var through := PassAll(Run(INIT, door), n, n);
    RunConcat(INIT, door, through, n);
    schedule := door + through;
    ArrivalsLeaveTheRest(INIT, schedule);
    Conservation(schedule);
  }
}
