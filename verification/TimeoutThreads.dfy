/** Timeout messages handled by any number of threads. Each message is handled in two halves,
    first on the store and then in the table, and the halves of several messages interleave. */
module TimeoutThreads {
  import opened TimeoutTable
  import opened TimeoutStore

  datatype Message = Adding(t: TimeoutData) | Clearing(sagaId: Guid)

  datatype Half = OnStore(m: Message) | OnTable(m: Message) | Other(step: Step)

  /** `open` are the messages done with on the store and not yet in the table. */
  datatype State = State(service: Service, open: multiset<Message>)

  const IDLE := State(EMPTY_SERVICE, multiset{})

  ghost predicate Possible(s: State, h: Half) {
    match h
    case OnStore(Adding(t)) => Enabled(s.service, Add(t))
    case OnStore(Clearing(sagaId)) => sagaId != EMPTY_GUID
    case OnTable(m) => m in s.open
    case Other(step) => !step.Add? && !step.Clear? && Enabled(s.service, step)
  }

  function HandledOnStore(s: Service, m: Message): Service {
    match m
    case Adding(t) => AddToStore(s, t)
    case Clearing(sagaId) => ClearStore(s, sagaId)
  }

  function HandledInTable(s: Service, m: Message): Service {
    match m
    case Adding(t) => PushToTable(s, t)
    case Clearing(sagaId) => ClearTable(s, sagaId)
  }

  ghost function After(s: State, h: Half): State
    requires Possible(s, h)
  {
    match h
    case OnStore(m) => State(HandledOnStore(s.service, m), s.open + multiset{m})
    case OnTable(m) => State(HandledInTable(s.service, m), s.open - multiset{m})
    case Other(step) => s.(service := Next(s.service, step))
  }

  /** The state after a run, or nothing if some half of it could not be taken. */
  ghost function Interleave(halves: seq<Half>): seq<State> {
    if halves == [] then [IDLE]
    else
      var before := Interleave(halves[..|halves| - 1]);
      var h := halves[|halves| - 1];
      if before != [] && Possible(before[0], h) then [After(before[0], h)] else []
  }

  function StoreOrder(halves: seq<Half>): seq<Message> {
    if halves == [] then []
    else
      var h := halves[|halves| - 1];
      StoreOrder(halves[..|halves| - 1]) + if h.OnStore? then [h.m] else []
  }

  function TableOrder(halves: seq<Half>): seq<Message> {
    if halves == [] then []
    else
      var h := halves[|halves| - 1];
      TableOrder(halves[..|halves| - 1]) + if h.OnTable? then [h.m] else []
  }

  /** The last of the messages that concerns the timeout clears its saga. */
  predicate ClearedBy(order: seq<Message>, t: TimeoutData) {
    if order == [] then false
    else
      match order[|order| - 1]
      case Adding(u) => u != t && ClearedBy(order[..|order| - 1], t)
      case Clearing(sagaId) => sagaId == t.sagaId || ClearedBy(order[..|order| - 1], t)
  }

  predicate Taken(s: Service, t: TimeoutData) {
    t in s.inFlight || t in s.attempted || t in s.lost
  }

  predicate Unfinished(s: State, t: TimeoutData) {
    Adding(t) in s.open
  }

  // ---- What every run keeps ----

  /** Both copies hold what the order of their own halves makes them hold. */
  ghost predicate Tracked(s: State, stored: seq<Message>, tabled: seq<Message>) {
    forall t :: t in s.service.known && !Taken(s.service, t) ==>
      && (t in s.service.store <==> !ClearedBy(stored, t))
      && (Pending(s.service.table, t) <==> !Unfinished(s, t) && !ClearedBy(tabled, t))
  }

  ghost predicate Sound(s: State) {
    var v := s.service;
    && WellFormed(v.table)
    && (forall t :: t in v.store || Pending(v.table, t) || Taken(v, t) || Unfinished(s, t) ==> t in v.known)
    && (forall t :: Taken(v, t) ==> !Pending(v.table, t) && !Unfinished(s, t))
    && (forall t :: s.open[Adding(t)] <= 1)
    && v.requests <= v.attempted
    && (forall t, u :: t in v.known && u in v.known && t.id == u.id ==> t == u)
    && (forall t :: t in v.lost ==> t.time == MIN_VALUE)
  }

  lemma OneMore(order: seq<Message>, m: Message, t: TimeoutData)
    ensures ClearedBy(order + [m], t) <==>
            match m
            case Adding(u) => u != t && ClearedBy(order, t)
            case Clearing(sagaId) => sagaId == t.sagaId || ClearedBy(order, t)
  {
    assert (order + [m])[..|order|] == order;
  }

  lemma StoreHalf(s: State, m: Message, stored: seq<Message>, tabled: seq<Message>)
    requires Sound(s) && Tracked(s, stored, tabled) && Possible(s, OnStore(m))
    ensures Sound(After(s, OnStore(m))) && Tracked(After(s, OnStore(m)), stored + [m], tabled)
  {
    var r := After(s, OnStore(m));
    if m.Clearing? {
      WithoutHolds(s.service.store, m.sagaId);
    }
    forall t
      ensures Unfinished(r, t) <==> Unfinished(s, t) || m == Adding(t)
      ensures r.open[Adding(t)] <= 1
    {
    }
    forall t | t in r.service.known && !Taken(r.service, t)
      ensures t in r.service.store <==> !ClearedBy(stored + [m], t)
    {
      OneMore(stored, m, t);
    }
  }

  lemma TableAdd(s: State, t: TimeoutData, stored: seq<Message>, tabled: seq<Message>)
    requires Sound(s) && Tracked(s, stored, tabled) && Possible(s, OnTable(Adding(t)))
    ensures var r := After(s, OnTable(Adding(t)));
            Sound(r) && Tracked(r, stored, tabled + [Adding(t)])
  {
    var r := After(s, OnTable(Adding(t)));
    PushedWellFormed(s.service.table, t);
    assert Unfinished(s, t);
    forall u
      ensures Unfinished(r, u) <==> Unfinished(s, u) && u != t
      ensures Pending(r.service.table, u) <==> Pending(s.service.table, u) || u == t
    {
    }
    forall u
      ensures ClearedBy(tabled + [Adding(t)], u) <==> u != t && ClearedBy(tabled, u)
    {
      OneMore(tabled, Adding(t), u);
    }
  }

  lemma TableClear(s: State, sagaId: Guid, stored: seq<Message>, tabled: seq<Message>)
    requires Sound(s) && Tracked(s, stored, tabled) && Possible(s, OnTable(Clearing(sagaId)))
    ensures var r := After(s, OnTable(Clearing(sagaId)));
            Sound(r) && Tracked(r, stored, tabled + [Clearing(sagaId)])
  {
    var r := After(s, OnTable(Clearing(sagaId)));
    ClearedWellFormed(s.service.table, sagaId);
    PendingAfterClear(s.service.table, sagaId);
    forall u
      ensures Unfinished(r, u) <==> Unfinished(s, u)
    {
    }
    forall u
      ensures ClearedBy(tabled + [Clearing(sagaId)], u) <==> u.sagaId == sagaId || ClearedBy(tabled, u)
    {
      OneMore(tabled, Clearing(sagaId), u);
    }
  }

  lemma PollerStep(s: State, step: Step, stored: seq<Message>, tabled: seq<Message>)
    requires Sound(s) && Tracked(s, stored, tabled) && Possible(s, Other(step))
    ensures Sound(After(s, Other(step))) && Tracked(After(s, Other(step)), stored, tabled)
  {
    var r := After(s, Other(step));
    match step
    case Take =>
      var k := MinKey(s.service.table);
      forall t
        ensures Pending(s.service.table, t) <==> Pending(r.service.table, t) || t in s.service.table[k]
        ensures t in s.service.table[k] ==> !Pending(r.service.table, t)
      {
      }
    case Attempt(_) => assert s.service.inFlight == [s.service.inFlight[0]] + s.service.inFlight[1..];
    case Confirm(t) => WithoutIdHolds(s.service.store, t.id);
    case Reject(_) =>
  }

  lemma {:induction false} EveryRun(halves: seq<Half>)
    ensures forall s :: s in Interleave(halves) ==> Sound(s) && Tracked(s, StoreOrder(halves), TableOrder(halves))
  {
    if halves != [] && Interleave(halves) != [] {
      var front, h := halves[..|halves| - 1], halves[|halves| - 1];
      EveryRun(front);
      var s := Interleave(front)[0];
      assert s in Interleave(front);
      var stored, tabled := StoreOrder(front), TableOrder(front);
      assert stored + [] == stored && tabled + [] == tabled;
      match h
      case OnStore(m) => StoreHalf(s, m, stored, tabled);
      case OnTable(Adding(t)) => TableAdd(s, t, stored, tabled);
      case OnTable(Clearing(sagaId)) => TableClear(s, sagaId, stored, tabled);
      case Other(step) => PollerStep(s, step, stored, tabled);
    }
  }

  // ---- When the two copies agree ----

  /** After any run of any number of threads, store and table agree exactly when, for each timeout
      the poller has not taken, the last store half that concerns it was a clear just if the
      last table half was one, too, or is still to add it. */
  lemma ThreadsAgreeExactly(halves: seq<Half>, s: State)
    requires s in Interleave(halves)
    ensures Agree(s.service) <==>
            forall t :: t in s.service.known && !Taken(s.service, t) ==>
              (ClearedBy(StoreOrder(halves), t) <==> Unfinished(s, t) || ClearedBy(TableOrder(halves), t))
  {
    EveryRun(halves);
    FlattenHolds(s.service.table);
    assert forall t :: t in Flatten(s.service.table) <==> Pending(s.service.table, t);
  }

  lemma {:induction false} OpenCounts(halves: seq<Half>, s: State)
    requires s in Interleave(halves)
    ensures multiset(StoreOrder(halves)) == multiset(TableOrder(halves)) + s.open
  {
    if halves != [] {
      var front := halves[..|halves| - 1];
      OpenCounts(front, Interleave(front)[0]);
    }
  }

  /** In particular, they agree if the table halves come in the order of the store halves, as they
      do when one thread handles all messages. */
  lemma SameOrderAgrees(halves: seq<Half>, s: State)
    requires s in Interleave(halves) && StoreOrder(halves) == TableOrder(halves)
    ensures Agree(s.service)
  {
    OpenCounts(halves, s);
    forall m
      ensures m !in s.open
    {
      assert multiset(StoreOrder(halves))[m] == multiset(TableOrder(halves))[m] + s.open[m];
    }
    ThreadsAgreeExactly(halves, s);
  }

  // ---- One add against one clear ----

  function AddAndClearStore(s: Service, t: TimeoutData, addFirst: bool): Service {
    if addFirst then ClearStore(AddToStore(s, t), t.sagaId) else AddToStore(ClearStore(s, t.sagaId), t)
  }

  function AddAndClearTable(s: Service, t: TimeoutData, addFirst: bool): Service {
    if addFirst then ClearTable(PushToTable(s, t), t.sagaId) else PushToTable(ClearTable(s, t.sagaId), t)
  }

  /** In any service that agrees, however the halves of an add and of a clear of the same saga
      fall, agreement lasts exactly when they come in the same order on both sides. */
  lemma RaceAgreesExactly(s: Service, t: TimeoutData, storeAddFirst: bool, tableAddFirst: bool)
    requires Lasting(s) && Enabled(s, Add(t))
    ensures var r := AddAndClearTable(AddAndClearStore(s, t, storeAddFirst), t, tableAddFirst);
            (Lasting(r) <==> storeAddFirst == tableAddFirst) && (Agree(r) <==> storeAddFirst == tableAddFirst) &&
            (t in r.store <==> !storeAddFirst) && (Pending(r.table, t) <==> !tableAddFirst)
  {
    var r := AddAndClearTable(AddAndClearStore(s, t, storeAddFirst), t, tableAddFirst);
    if storeAddFirst == tableAddFirst {
      if storeAddFirst {
        LastingAdd(s, t);
        LastingClear(Next(s, Add(t)), t.sagaId);
        assert r == Next(Next(s, Add(t)), Clear(t.sagaId));
      } else {
        LastingClear(s, t.sagaId);
        WithoutHolds(s.store, t.sagaId);
        LastingAdd(Next(s, Clear(t.sagaId)), t);
        assert r == Next(Next(s, Clear(t.sagaId)), Add(t));
      }
      LastingAgrees(r);
    }
    RaceOutcome(s, t, storeAddFirst, tableAddFirst);
    FlattenHolds(r.table);
  }

  lemma RaceOutcome(s: Service, t: TimeoutData, storeAddFirst: bool, tableAddFirst: bool)
    requires Lasting(s) && Enabled(s, Add(t))
    ensures var r := AddAndClearTable(AddAndClearStore(s, t, storeAddFirst), t, tableAddFirst);
            WellFormed(r.table) && r.inFlight == s.inFlight && r.attempted == s.attempted && r.lost == s.lost &&
            (t in r.store <==> !storeAddFirst) && (Pending(r.table, t) <==> !tableAddFirst)
  {
    if storeAddFirst {
      WithoutHolds(s.store + [t], t.sagaId);
    }
    if tableAddFirst {
      PushedWellFormed(s.table, t);
      ClearedWellFormed(Pushed(s.table, t), t.sagaId);
      PendingAfterClear(Pushed(s.table, t), t.sagaId);
    } else {
      ClearedWellFormed(s.table, t.sagaId);
      PushedWellFormed(Cleared(s.table, t.sagaId), t);
    }
  }

  // ---- Both failures happen ----

  /** The four halves of an add and a clear, in one of the four orders that matter. */
  function Race(t: TimeoutData, storeAddFirst: bool, tableAddFirst: bool): seq<Half> {
    var add, clear := Adding(t), Clearing(t.sagaId);
    (if storeAddFirst then [OnStore(add), OnStore(clear)] else [OnStore(clear), OnStore(add)]) +
    (if tableAddFirst then [OnTable(add), OnTable(clear)] else [OnTable(clear), OnTable(add)])
  }

  lemma OneMoreHalf(halves: seq<Half>, s: State, h: Half, r: State)
    requires Interleave(halves) == [s] && Possible(s, h) && After(s, h) == r
    ensures Interleave(halves + [h]) == [r]
  {
    assert (halves + [h])[..|halves|] == halves;
  }

  lemma StoreHalves(a: Message, b: Message)
    requires Possible(IDLE, OnStore(a))
    requires Possible(State(HandledOnStore(EMPTY_SERVICE, a), multiset{a}), OnStore(b))
    ensures Interleave([OnStore(a), OnStore(b)])
         == [State(HandledOnStore(HandledOnStore(EMPTY_SERVICE, a), b), multiset{a, b})]
  {
    var v := HandledOnStore(EMPTY_SERVICE, a);
    OneMoreHalf([], IDLE, OnStore(a), State(v, multiset{a}));
    assert [] + [OnStore(a)] == [OnStore(a)];
    OneMoreHalf([OnStore(a)], State(v, multiset{a}), OnStore(b), State(HandledOnStore(v, b), multiset{a, b}));
    assert [OnStore(a)] + [OnStore(b)] == [OnStore(a), OnStore(b)];
  }

  lemma TableHalves(halves: seq<Half>, s: Service, c: Message, d: Message)
    requires Interleave(halves) == [State(s, multiset{c, d})]
    ensures Interleave(halves + [OnTable(c), OnTable(d)]) ==
              [State(HandledInTable(HandledInTable(s, c), d), multiset{})]
  {
    var v := HandledInTable(s, c);
    assert multiset{c, d} - multiset{c} == multiset{d} && multiset{d} - multiset{d} == multiset{};
    OneMoreHalf(halves, State(s, multiset{c, d}), OnTable(c), State(v, multiset{d}));
    OneMoreHalf(halves + [OnTable(c)], State(v, multiset{d}), OnTable(d), State(HandledInTable(v, d), multiset{}));
    assert halves + [OnTable(c)] + [OnTable(d)] == halves + [OnTable(c), OnTable(d)];
  }

  lemma RaceRuns(t: TimeoutData, storeAddFirst: bool, tableAddFirst: bool) returns (s: State)
    requires t.sagaId != EMPTY_GUID
    ensures Interleave(Race(t, storeAddFirst, tableAddFirst)) == [s]
    ensures s.service == AddAndClearTable(AddAndClearStore(EMPTY_SERVICE, t, storeAddFirst), t, tableAddFirst)
  {
    var add, clear := Adding(t), Clearing(t.sagaId);
    var a, b := if storeAddFirst then add else clear, if storeAddFirst then clear else add;
    var c, d := if tableAddFirst then add else clear, if tableAddFirst then clear else add;
    StoreHalves(a, b);
    var stored := HandledOnStore(HandledOnStore(EMPTY_SERVICE, a), b);
    assert multiset{a, b} == multiset{c, d};
    TableHalves([OnStore(a), OnStore(b)], stored, c, d);
    s := State(HandledInTable(HandledInTable(stored, c), d), multiset{});
  }

  /** A clear that has emptied the store but not yet the table wipes out a timeout added in
      between, which then is stored but waits nowhere. */
  lemma ConcurrentClearStrandsATimeout(t: TimeoutData)
    requires t.sagaId != EMPTY_GUID
    ensures exists s :: s in Interleave(Race(t, false, true)) &&
                        t in s.service.store && !Pending(s.service.table, t) && !Agree(s.service)
  {
    var s := RaceRuns(t, false, true);
    RaceAgreesExactly(EMPTY_SERVICE, t, false, true);
    assert s in Interleave(Race(t, false, true));
  }

  /** A timeout that is cleared in store and table before it gets to the table waits there,
      although it is not stored. */
  lemma ConcurrentAddOutlivesItsClear(t: TimeoutData)
    requires t.sagaId != EMPTY_GUID
    ensures exists s :: s in Interleave(Race(t, true, false)) &&
                        t !in s.service.store && Pending(s.service.table, t) && !Agree(s.service)
  {
    var s := RaceRuns(t, true, false);
    RaceAgreesExactly(EMPTY_SERVICE, t, true, false);
    assert s in Interleave(Race(t, true, false));
  }
}
