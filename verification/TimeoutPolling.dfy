/** One poller, any number of pushing and clearing threads and an ideal clock.
    The poller sleeps outside the lock, so pushes and clears fall anywhere in its sleep. */
module TimeoutPolling {
  import opened TimeoutTable

  /** Where the polling thread is: about to call PopTimeout, sleeping with nothing
      taken, or sleeping until it dispatches the bucket it took. */
  datatype Poller = Ready | Idle(wake: Time) | Holding(bucket: seq<TimeoutData>, wake: Time)

  datatype Attempt = Attempt(timeout: TimeoutData, at: Time)

  /** `pushed`, `pushedAt`, `attempted`, `cleared` and `lost` record the history;
      `now`, `data` and `poller` are the running state. */
  datatype System = System(
    now: Time, data: Table, poller: Poller,
    pushed: seq<TimeoutData>, pushedAt: map<TimeoutData, Time>,
    attempted: seq<Attempt>, cleared: multiset<TimeoutData>, lost: multiset<TimeoutData>)

  datatype Step = Push(t: TimeoutData) | Clear(sagaId: Guid) | Poll | Wake | Tick(span: nat)

  function Start(now: Time): System {
    System(now, map[], Ready, [], map[], [], multiset{}, multiset{})
  }

  /** Every caller pushes a TimeoutData object of its own; time passes only while
      the poller sleeps and never beyond the moment it is due to wake. */
  predicate Enabled(s: System, step: Step) {
    match step
    case Push(t) => t !in s.pushedAt
    case Clear(_) => true
    case Poll => s.poller.Ready?
    case Wake => !s.poller.Ready? && s.now == s.poller.wake
    case Tick(span) => !s.poller.Ready? && s.now + span <= s.poller.wake
  }

  function OfSaga(s: seq<TimeoutData>, sagaId: Guid): seq<TimeoutData> {
    if s == [] then []
    else if s[0].sagaId == sagaId then [s[0]] + OfSaga(s[1..], sagaId)
    else OfSaga(s[1..], sagaId)
  }

  function AttemptsAt(bucket: seq<TimeoutData>, now: Time): seq<Attempt> {
    seq(|bucket|, i requires 0 <= i < |bucket| => Attempt(bucket[i], now))
  }

  ghost function AfterPoll(s: System, duration: nat): System {
    var due := DueKey(s.data, s.now, duration);
    if due == [] then s.(poller := Idle(s.now + duration))
    else
      var k := due[0];
      var rest := s.(data := s.data - {k});
      if k == MIN_VALUE then rest.(poller := Idle(s.now + duration), lost := s.lost + multiset(s.data[k]))
      else rest.(poller := Holding(s.data[k], if k > s.now then k else s.now))
  }

  ghost function Next(s: System, step: Step, duration: nat): System
    requires Enabled(s, step)
  {
    match step
    case Push(t) =>
      s.(data := Pushed(s.data, t), pushed := s.pushed + [t], pushedAt := s.pushedAt[t := s.now])
    case Clear(sagaId) =>
      s.(data := Cleared(s.data, sagaId), cleared := s.cleared + multiset(OfSaga(Flatten(s.data), sagaId)))
    case Poll => AfterPoll(s, duration)
    case Wake =>
      if s.poller.Idle? then s.(poller := Ready)
      else s.(poller := Ready, attempted := s.attempted + AttemptsAt(s.poller.bucket, s.now))
    case Tick(span) => s.(now := s.now + span)
  }

  /** The state after a run, or nothing if some step of it could not be taken. */
  ghost function Execute(s: System, steps: seq<Step>, duration: nat): seq<System>
    decreases |steps|
  {
    if steps == [] then [s]
    else if Enabled(s, steps[0]) then Execute(Next(s, steps[0], duration), steps[1..], duration)
    else []
  }

  function InFlight(p: Poller): seq<TimeoutData> {
    if p.Holding? then p.bucket else []
  }

  function Timeouts(attempts: seq<Attempt>): seq<TimeoutData> {
    seq(|attempts|, i requires 0 <= i < |attempts| => attempts[i].timeout)
  }

  // ---- Conservation ----

  /** Nothing vanishes or doubles: what was pushed is pending, in flight, attempted,
      cleared, or lost; and only timeouts for DateTime.MinValue are ever lost. */
  ghost predicate Conserved(s: System) {
    && WellFormed(s.data)
    && multiset(s.pushed) ==
       multiset(Flatten(s.data)) + multiset(InFlight(s.poller)) + multiset(Timeouts(s.attempted)) + s.cleared + s.lost
    && forall t :: t in s.lost ==> t.time == MIN_VALUE
  }

  lemma {:induction false} OfSagaSplits(s: seq<TimeoutData>, sagaId: Guid)
    ensures multiset(s) == multiset(Without(s, sagaId)) + multiset(OfSaga(s, sagaId))
  {
    if s != [] {
      OfSagaSplits(s[1..], sagaId);
      assert s == [s[0]] + s[1..];
    }
  }

  lemma TimeoutsConcat(a: seq<Attempt>, bucket: seq<TimeoutData>, now: Time)
    ensures Timeouts(a + AttemptsAt(bucket, now)) == Timeouts(a) + bucket
  {
  }

  lemma ConservedPush(s: System, t: TimeoutData, duration: nat)
    requires Conserved(s) && Enabled(s, Push(t))
    ensures Conserved(Next(s, Push(t), duration))
  {
    PushedWellFormed(s.data, t);
    FlattenPushed(s.data, t);
    InsertAdds(Flatten(s.data), t);
  }

  lemma ConservedClear(s: System, sagaId: Guid, duration: nat)
    requires Conserved(s)
    ensures Conserved(Next(s, Clear(sagaId), duration))
  {
    ClearedWellFormed(s.data, sagaId);
    FlattenCleared(s.data, sagaId);
    OfSagaSplits(Flatten(s.data), sagaId);
  }

  lemma ConservedPoll(s: System, duration: nat)
    requires Conserved(s) && s.poller.Ready?
    ensures Conserved(AfterPoll(s, duration))
  {
    var due := DueKey(s.data, s.now, duration);
    if due != [] {
      var k := due[0];
      BucketTaken(s.data, k);
      Regrouped(multiset(Flatten(s.data - {k})), multiset(s.data[k]), multiset{}, multiset(Timeouts(s.attempted)),
                s.cleared, s.lost);
    }
  }

  lemma BucketTaken(m: Table, k: Time)
    requires WellFormed(m) && k in m && forall j :: j in m ==> k <= j
    ensures WellFormed(m - {k}) && forall t :: t in multiset(m[k]) ==> t.time == k
    ensures multiset(Flatten(m)) == multiset(Flatten(m - {k})) + multiset(m[k])
  {
    FlattenFirst(m, k);
  }

  lemma Regrouped(rest: multiset<TimeoutData>, bucket: multiset<TimeoutData>, none: multiset<TimeoutData>,
                  attempted: multiset<TimeoutData>, cleared: multiset<TimeoutData>, lost: multiset<TimeoutData>)
    requires none == multiset{}
    ensures (rest + bucket) + none + attempted + cleared + lost == rest + bucket + attempted + cleared + lost
    ensures (rest + bucket) + none + attempted + cleared + lost == rest + none + attempted + cleared + (lost + bucket)
  {
  }

  lemma ConservedStep(s: System, step: Step, duration: nat)
    requires Conserved(s) && Enabled(s, step)
    ensures Conserved(Next(s, step, duration))
  {
    match step
    case Push(t) => ConservedPush(s, t, duration);
    case Clear(sagaId) => ConservedClear(s, sagaId, duration);
    case Poll => ConservedPoll(s, duration);
    case Wake =>
      if s.poller.Holding? {
        TimeoutsConcat(s.attempted, s.poller.bucket, s.now);
      }
    case Tick(_) =>
  }

  lemma {:induction false} ConservedFrom(s: System, steps: seq<Step>, duration: nat)
    requires Conserved(s)
    decreases |steps|
    ensures forall r :: r in Execute(s, steps, duration) ==> Conserved(r)
  {
    if steps != [] && Enabled(s, steps[0]) {
      ConservedStep(s, steps[0], duration);
      ConservedFrom(Next(s, steps[0], duration), steps[1..], duration);
    }
  }

  /** Over every run the timeouts are conserved. */
  lemma Conservation(now: Time, steps: seq<Step>, duration: nat)
    ensures forall r :: r in Execute(Start(now), steps, duration) ==> Conserved(r)
  {
    ConservedFrom(Start(now), steps, duration);
  }

  // ---- Bounded lateness ----

  /** The latest moment at which a timeout may be dispatched. */
  function Deadline(s: System, t: TimeoutData, duration: nat): Time
    requires t in s.pushedAt
  {
    var polled := s.pushedAt[t] + duration;
    if t.time > polled then t.time else polled
  }

  /** No timeout is dispatched before its time or after its deadline, and the clock
      does not pass the deadline of one that is still waiting. */
  ghost predicate OnTime(s: System, duration: nat) {
    && (forall t :: t in Flatten(s.data) || t in InFlight(s.poller) ==>
          t in s.pushedAt && s.now <= Deadline(s, t, duration))
    && AttemptsOnTime(s, duration)
  }

  /** The clock cannot pass this before the poller polls again. */
  function Horizon(s: System): Time {
    if s.poller.Ready? then s.now else s.poller.wake
  }

  ghost predicate Scheduled(s: System, duration: nat) {
    && WellFormed(s.data)
    && MIN_VALUE !in s.data
    && s.now <= Horizon(s) <= s.now + duration
    && (forall t :: Pending(s.data, t) ==> t in s.pushedAt && Horizon(s) <= Deadline(s, t, duration))
    && (forall t :: t in InFlight(s.poller) ==> t in s.pushedAt && t.time <= Horizon(s) <= Deadline(s, t, duration))
    && AttemptsOnTime(s, duration)
  }

  ghost predicate AttemptsOnTime(s: System, duration: nat) {
    forall a :: a in s.attempted ==>
      a.timeout in s.pushedAt && a.timeout.time <= a.at <= Deadline(s, a.timeout, duration)
  }

  ghost predicate AboveMinValue(steps: seq<Step>) {
    forall step :: step in steps && step.Push? ==> step.t.time > MIN_VALUE
  }

  lemma ScheduledPush(s: System, t: TimeoutData, duration: nat)
    requires Scheduled(s, duration) && t !in s.pushedAt && t.time > MIN_VALUE
    ensures Scheduled(Next(s, Push(t), duration), duration)
  {
    PushedWellFormed(s.data, t);
    var r := Next(s, Push(t), duration);
    assert AttemptsOnTime(r, duration);
    forall u | Pending(r.data, u)
      ensures u in r.pushedAt && Horizon(r) <= Deadline(r, u, duration)
    {
      assert u == t || Pending(s.data, u);
    }
  }

  lemma ScheduledClear(s: System, sagaId: Guid, duration: nat)
    requires Scheduled(s, duration)
    ensures Scheduled(Next(s, Clear(sagaId), duration), duration)
  {
    ClearedWellFormed(s.data, sagaId);
    forall u | Pending(Cleared(s.data, sagaId), u)
      ensures Pending(s.data, u)
    {
      WithoutHolds(s.data[u.time], sagaId);
    }
  }

  lemma ScheduledWake(s: System, duration: nat)
    requires Scheduled(s, duration) && Enabled(s, Wake)
    ensures Scheduled(Next(s, Wake, duration), duration)
  {
    if s.poller.Holding? {
      forall a | a in AttemptsAt(s.poller.bucket, s.now)
        ensures a.timeout in s.poller.bucket && a.at == s.now
      {
      }
    }
  }

  lemma ScheduledStep(s: System, step: Step, duration: nat)
    requires Scheduled(s, duration) && Enabled(s, step)
    requires step.Push? ==> step.t.time > MIN_VALUE
    ensures Scheduled(Next(s, step, duration), duration)
  {
    match step
    case Push(t) => ScheduledPush(s, t, duration);
    case Clear(sagaId) => ScheduledClear(s, sagaId, duration);
    case Poll => ScheduledPoll(s, duration);
    case Wake => ScheduledWake(s, duration);
    case Tick(_) =>
  }

  lemma ScheduledPoll(s: System, duration: nat)
    requires Scheduled(s, duration) && s.poller.Ready?
    ensures Scheduled(AfterPoll(s, duration), duration)
  {
    var r := AfterPoll(s, duration);
    assert AttemptsOnTime(r, duration);
    forall t | Pending(r.data, t)
      ensures Pending(s.data, t) && Horizon(r) <= Deadline(s, t, duration)
    {
      assert MinKey(s.data) <= t.time;
    }
    if DueKey(s.data, s.now, duration) != [] {
      var k := MinKey(s.data);
      forall t | t in s.data[k]
        ensures Pending(s.data, t)
      {
      }
    }
  }

  lemma {:induction false} ScheduledFrom(s: System, steps: seq<Step>, duration: nat)
    requires Scheduled(s, duration) && AboveMinValue(steps)
    decreases |steps|
    ensures forall r :: r in Execute(s, steps, duration) ==> Scheduled(r, duration)
  {
    if steps != [] && Enabled(s, steps[0]) {
      ScheduledStep(s, steps[0], duration);
      ScheduledFrom(Next(s, steps[0], duration), steps[1..], duration);
    }
  }

  /** Two-sided timing over every run whose timeouts lie above DateTime.MinValue. */
  lemma BoundedLateness(now: Time, steps: seq<Step>, duration: nat)
    requires AboveMinValue(steps)
    ensures forall r :: r in Execute(Start(now), steps, duration) ==> OnTime(r, duration)
  {
    ScheduledFrom(Start(now), steps, duration);
    forall r | r in Execute(Start(now), steps, duration)
      ensures OnTime(r, duration)
    {
      FlattenHolds(r.data);
    }
  }

  // ---- Where DateTime.MinValue breaks the two promises ----

  lemma {:induction false} NothingLostFrom(s: System, steps: seq<Step>, duration: nat)
    requires Scheduled(s, duration) && AboveMinValue(steps) && s.lost == multiset{}
    ensures forall r :: r in Execute(s, steps, duration) ==> r.lost == multiset{}
    decreases |steps|
  {
    if steps != [] && Enabled(s, steps[0]) {
      ScheduledStep(s, steps[0], duration);
      NothingLostFrom(Next(s, steps[0], duration), steps[1..], duration);
    }
  }

  ghost predicate OnlyPushesFor(steps: seq<Step>, k: Time) {
    forall step :: step in steps && step.Push? ==> step.t.time == k
  }

  ghost predicate NeverLost(k: Time, duration: nat) {
    forall now, steps, r ::
      OnlyPushesFor(steps, k) && r in Execute(Start(now), steps, duration) ==> r.lost == multiset{}
  }

  /** Timeouts for a given moment are safe from being lost exactly when that moment
      is not DateTime.MinValue. */
  lemma LostExactlyAtMinValue(k: Time, duration: nat)
    ensures NeverLost(k, duration) <==> k != MIN_VALUE
  {
    if k != MIN_VALUE {
      forall now, steps, r | OnlyPushesFor(steps, k) && r in Execute(Start(now), steps, duration)
        ensures r.lost == multiset{}
      {
        NothingLostFrom(Start(now), steps, duration);
      }
    } else {
      var t := TimeoutData(0, 0, MIN_VALUE, "");
      var r := LostAtMinValue(t, duration);
      assert t in r.lost;
      assert OnlyPushesFor([Push(t), Poll], k);
    }
  }

  lemma LostAtMinValue(t: TimeoutData, duration: nat) returns (r: System)
    requires t.time == MIN_VALUE
    ensures r in Execute(Start(1), [Push(t), Poll], duration) && t in r.lost
  {
    var s := Next(Start(1), Push(t), duration);
    r := Next(s, Poll, duration);
    RunOfTwo(Start(1), Push(t), Poll, duration);
    PushedNew(map[], t);
    assert s.data == map[MIN_VALUE := [t]];
    assert t in s.data[MIN_VALUE];
  }

  lemma RunOfTwo(s: System, a: Step, b: Step, duration: nat)
    requires Enabled(s, a) && Enabled(Next(s, a, duration), b)
    ensures Execute(s, [a, b], duration) == [Next(Next(s, a, duration), b, duration)]
  {
    assert [a, b][1..] == [b] && [b][1..] == [];
    assert Execute(Next(s, a, duration), [b], duration) == [Next(Next(s, a, duration), b, duration)];
  }

  lemma {:induction false} RunsCompose(s: System, a: seq<Step>, b: seq<Step>, duration: nat)
    requires Execute(s, a, duration) != []
    ensures Execute(s, a + b, duration) == Execute(Execute(s, a, duration)[0], b, duration)
    decreases |a|
  {
    if a == [] {
      assert a + b == b;
    } else {
      RunsCompose(Next(s, a[0], duration), a[1..], b, duration);
      assert (a + b)[1..] == a[1..] + b;
    }
  }

  ghost predicate PushesFrom(steps: seq<Step>, least: Time) {
    forall step :: step in steps && step.Push? ==> step.t.time >= least
  }

  ghost predicate NeverLate(least: Time) {
    forall now, steps, duration: nat, r ::
      PushesFrom(steps, least) && r in Execute(Start(now), steps, duration) ==> OnTime(r, duration)
  }

  /** The timing promise holds for all runs over timeouts from `least` on exactly
      when that keeps DateTime.MinValue out: a lost bucket also costs the poller one
      whole sleep, which makes timeouts that were already due late. */
  lemma OnTimeExactlyAboveMinValue(least: Time)
    ensures NeverLate(least) <==> least > MIN_VALUE
  {
    if least > MIN_VALUE {
      forall now, steps, duration: nat, r | PushesFrom(steps, least) && r in Execute(Start(now), steps, duration)
        ensures OnTime(r, duration)
      {
        BoundedLateness(now, steps, duration);
      }
    } else {
      var steps, r := LateRun();
      assert PushesFrom(steps, least);
    }
  }

  lemma LateRun() returns (steps: seq<Step>, r: System)
    ensures r in Execute(Start(0), steps, 2) && !OnTime(r, 2)
  {
    var due, lost := TimeoutData(0, 0, 2, ""), TimeoutData(1, 0, MIN_VALUE, "");
    var b := NotYetDue(due);
    var d := Next(Next(b, Push(lost), 2), Tick(2), 2);
    RunOfTwo(b, Push(lost), Tick(2), 2);
    PushedNew(b.data, lost);
    var rest;
    rest, r := LostThenLate(d, due, lost);
    RunsCompose(b, [Push(lost), Tick(2)], rest, 2);
    RunsCompose(Start(0), [Push(due), Poll], [Push(lost), Tick(2)] + rest, 2);
    steps := [Push(due), Poll] + ([Push(lost), Tick(2)] + rest);
  }

  lemma NotYetDue(due: TimeoutData) returns (b: System)
    requires due.time == 2
    ensures Execute(Start(0), [Push(due), Poll], 2) == [b]
    ensures b.now == 0 && b.poller == Idle(2) && b.data == map[2 := [due]] && b.pushedAt == map[due := 0]
  {
    var a := Next(Start(0), Push(due), 2);
    PushedNew(map[], due);
    assert a.data == map[2 := [due]] && MinKey(a.data) == 2;
    b := Next(a, Poll, 2);
    RunOfTwo(Start(0), Push(due), Poll, 2);
  }

  lemma LostThenLate(d: System, due: TimeoutData, lost: TimeoutData) returns (steps: seq<Step>, r: System)
    requires d.now == 2 && d.poller == Idle(2) && d.data == map[2 := [due], MIN_VALUE := [lost]]
    requires due.time == 2 && due in d.pushedAt && d.pushedAt[due] == 0
    ensures r in Execute(d, steps, 2) && !OnTime(r, 2)
  {
    var f := Next(Next(d, Wake, 2), Poll, 2);
    assert MIN_VALUE in d.data && MinKey(d.data) == MIN_VALUE;
    RunOfTwo(d, Wake, Poll, 2);
    assert f.data == map[2 := [due]] && Flatten(f.data - {2}) == [] && due in Flatten(f.data);
    r := Next(f, Tick(1), 2);
    assert Execute(f, [Tick(1)], 2) == [r] by {
      assert [Tick(1)][1..] == [];
    }
    RunsCompose(d, [Wake, Poll], [Tick(1)], 2);
    steps := [Wake, Poll] + [Tick(1)];
  }

  // ---- Order of dispatch ----

  /** Everything not cleared, in the order in which it was or would next be dispatched. */
  ghost function Line(s: System): seq<TimeoutData> {
    Timeouts(s.attempted) + InFlight(s.poller) + Flatten(s.data)
  }

  ghost predicate Quiet(steps: seq<Step>) {
    forall step :: step in steps ==> !step.Push? && !step.Clear?
  }

  lemma LineStep(s: System, step: Step, duration: nat)
    requires Scheduled(s, duration) && Enabled(s, step) && !step.Push? && !step.Clear?
    ensures Line(Next(s, step, duration)) == Line(s)
  {
    match step
    case Poll =>
    case Wake =>
      if s.poller.Holding? {
        TimeoutsConcat(s.attempted, s.poller.bucket, s.now);
      }
    case Tick(_) =>
  }

  /** While nobody pushes or clears, polling dispatches from the front of the line. */
  lemma {:induction false} LineFrom(s: System, steps: seq<Step>, duration: nat)
    requires Scheduled(s, duration) && Quiet(steps)
    ensures forall r :: r in Execute(s, steps, duration) ==> Line(r) == Line(s)
    decreases |steps|
  {
    if steps != [] && Enabled(s, steps[0]) {
      LineStep(s, steps[0], duration);
      ScheduledStep(s, steps[0], duration);
      LineFrom(Next(s, steps[0], duration), steps[1..], duration);
    }
  }

  lemma {:induction false} PushesBuildLine(s: System, steps: seq<Step>, duration: nat)
    requires Scheduled(s, duration) && s.poller.Ready? && AboveMinValue(steps)
    requires Flatten(s.data) == StableSort(s.pushed)
    requires forall step :: step in steps ==> step.Push?
    ensures forall r :: r in Execute(s, steps, duration) ==>
              r.attempted == s.attempted && r.poller.Ready? && Flatten(r.data) == StableSort(r.pushed)
    decreases |steps|
  {
    if steps != [] && Enabled(s, steps[0]) {
      var t := steps[0].t;
      FlattenPushed(s.data, t);
      assert (s.pushed + [t])[..|s.pushed|] == s.pushed;
      ScheduledStep(s, steps[0], duration);
      PushesBuildLine(Next(s, steps[0], duration), steps[1..], duration);
    }
  }

  /** Pushing any timeouts and then draining the table dispatches their stable sort by time. */
  lemma DrainIsStableSort(now: Time, pushes: seq<Step>, drain: seq<Step>, duration: nat, s: System, r: System)
    requires AboveMinValue(pushes) && (forall step :: step in pushes ==> step.Push?) && Quiet(drain)
    requires s in Execute(Start(now), pushes, duration) && r in Execute(s, drain, duration)
    requires r.data == map[] && InFlight(r.poller) == []
    ensures Timeouts(r.attempted) == StableSort(s.pushed)
  {
    ScheduledFrom(Start(now), pushes, duration);
    PushesBuildLine(Start(now), pushes, duration);
    LineFrom(s, drain, duration);
    assert Timeouts(s.attempted) == [];
    assert Line(r) == Timeouts(r.attempted);
    assert Line(s) == Flatten(s.data);
  }

  /** One cycle that nothing disturbs takes the earliest bucket or sleeps the whole duration. */
  lemma QuietCycle(s: System, duration: nat) returns (steps: seq<Step>, r: System)
    requires Scheduled(s, duration) && s.poller.Ready?
    ensures Quiet(steps) && Execute(s, steps, duration) == [r]
    ensures Scheduled(r, duration) && r.poller.Ready? && r.pushed == s.pushed
    ensures var due := DueKey(s.data, s.now, duration);
            if due == [] then r.data == s.data && r.now == s.now + duration else r.data == s.data - {due[0]}
  {
    var a := AfterPoll(s, duration);
    var delay := a.poller.wake - s.now;
    steps := [Poll, Tick(delay), Wake];
    ScheduledFrom(s, steps, duration);
    RunOfTwo(a, Tick(delay), Wake, duration);
    assert steps[1..] == [Tick(delay), Wake];
    r := Next(Next(a, Tick(delay), duration), Wake, duration);
  }

  /** How long the poller can go on without taking a bucket. */
  ghost function Wait(s: System): nat {
    if s.data == map[] || MinKey(s.data) <= s.now then 0 else MinKey(s.data) - s.now
  }

  /** A poller that sleeps at all empties the table if it is left alone. */
  lemma {:induction false} TableDrains(s: System, duration: nat) returns (drain: seq<Step>, r: System)
    requires Scheduled(s, duration) && s.poller.Ready? && duration > 0
    ensures Quiet(drain) && Execute(s, drain, duration) == [r]
    ensures Scheduled(r, duration) && r.data == map[] && r.poller.Ready? && r.pushed == s.pushed
    decreases |s.data|, Wait(s)
  {
    if s.data == map[] {
      return [], s;
    }
    var steps, next := QuietCycle(s, duration);
    drain, r := TableDrains(next, duration);
    RunsCompose(s, steps, drain, duration);
    drain := steps + drain;
  }

  /** Whatever is pushed gets dispatched, all of it, on time and in the order of its stable sort. */
  lemma EverythingDispatched(now: Time, pushes: seq<Step>, duration: nat, s: System)
    returns (drain: seq<Step>, r: System)
    requires AboveMinValue(pushes) && (forall step :: step in pushes ==> step.Push?) && duration > 0
    requires s in Execute(Start(now), pushes, duration)
    ensures Quiet(drain) && r in Execute(s, drain, duration)
    ensures Timeouts(r.attempted) == StableSort(s.pushed) && OnTime(r, duration)
  {
    ScheduledFrom(Start(now), pushes, duration);
    PushesBuildLine(Start(now), pushes, duration);
    drain, r := TableDrains(s, duration);
    DrainIsStableSort(now, pushes, drain, duration, s, r);
    FlattenHolds(r.data);
  }

  /** A call of PopTimeout that nothing disturbs is one cycle of the polling system. */
  lemma PopTimeoutIsOneCycle(s: System, duration: nat, fails: TimeoutData -> bool)
    requires s.poller.Ready?
    ensures var popped := Popped(s.data, s.now, duration, fails);
            var delay := if popped.Slept? then popped.span else popped.delay;
            var rs := Execute(s, [Poll, Tick(delay), Wake], duration);
            |rs| == 1 && rs[0].poller.Ready? && rs[0].now == s.now + delay &&
            rs[0].data == s.data - (set k | k in DueKey(s.data, s.now, duration)) &&
            Timeouts(rs[0].attempted) == Timeouts(s.attempted) + if popped.Slept? then [] else popped.attempted
  {
    var popped := Popped(s.data, s.now, duration, fails);
    var delay := if popped.Slept? then popped.span else popped.delay;
    var a := AfterPoll(s, duration);
    var b := Next(a, Tick(delay), duration);
    RunOfTwo(a, Tick(delay), Wake, duration);
    assert [Poll, Tick(delay), Wake][1..] == [Tick(delay), Wake];
    assert DueKey(s.data, s.now, duration) == [] ==> s.data - {} == s.data;
    if a.poller.Holding? {
      TimeoutsConcat(s.attempted, a.poller.bucket, b.now);
    }
  }
}
