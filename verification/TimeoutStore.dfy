/** The durable store beside the timeout table: the message handler that updates both,
    the replay at start-up, and when the two agree. */
module TimeoutStore {
  import opened TimeoutTable

  const EMPTY_GUID: Guid := 0

  function WithoutId(s: seq<TimeoutData>, id: nat): seq<TimeoutData> {
    if s == [] then []
    else if s[0].id == id then WithoutId(s[1..], id)
    else [s[0]] + WithoutId(s[1..], id)
  }

  lemma {:induction false} WithoutIdHolds(s: seq<TimeoutData>, id: nat)
    ensures forall t :: t in WithoutId(s, id) <==> t in s && t.id != id
  {
    if s != [] {
      WithoutIdHolds(s[1..], id);
    }
  }

  // ---- The objects ----

  /** The persister, as a list of the timeouts added and not yet removed. */
  class InMemoryTimeoutPersistence {
    var storage: seq<TimeoutData>

    constructor ()
      ensures storage == []
    {
      storage := [];
    }

    /** Assigns the timeout its id. */
    method Add(timeout: TimeoutData, newId: nat) returns (added: TimeoutData)
      modifies this
      ensures added == timeout.(id := newId) && storage == old(storage) + [added]
    {
      added := timeout.(id := newId);
      storage := storage + [added];
    }

    method ClearTimeoutsFor(sagaId: Guid)
      modifies this
      ensures storage == Without(old(storage), sagaId)
    {
      var kept := [];
      for i := 0 to |storage|
        invariant storage == old(storage)
        invariant kept + Without(storage[i..], sagaId) == Without(storage, sagaId)
      {
        if storage[i].sagaId != sagaId {
          kept := kept + [storage[i]];
        }
      }
      storage := kept;
    }

    /** Throws unless there is exactly one timeout with that id. */
    method Remove(timeoutId: nat) returns (ok: bool)
      modifies this
      ensures ok <==> CountId(old(storage), timeoutId) == 1
      ensures storage == if ok then WithoutId(old(storage), timeoutId) else old(storage)
    {
      var found, at := 0, 0;
      for i := 0 to |storage|
        invariant storage == old(storage)
        invariant found == CountId(storage[..i], timeoutId)
        invariant found > 0 ==> at < i && storage[at].id == timeoutId
      {
        assert storage[..i + 1][..i] == storage[..i];
        if storage[i].id == timeoutId {
          found, at := found + 1, i;
        }
      }
      assert storage[..|storage|] == storage;
      ok := found == 1;
      if ok {
        OnlyOneRemoved(storage, at, timeoutId);
        storage := storage[..at] + storage[at + 1..];
      }
    }
  }

  function CountId(s: seq<TimeoutData>, id: nat): nat {
    if s == [] then 0 else CountId(s[..|s| - 1], id) + if s[|s| - 1].id == id then 1 else 0
  }

  lemma {:induction false} CountIdConcat(a: seq<TimeoutData>, b: seq<TimeoutData>, id: nat)
    ensures CountId(a + b, id) == CountId(a, id) + CountId(b, id)
  {
    if b == [] {
      assert a + b == a;
    } else {
      assert (a + b)[..|a + b| - 1] == a + b[..|b| - 1];
      CountIdConcat(a, b[..|b| - 1], id);
    }
  }

  lemma {:induction false} NoneCounted(s: seq<TimeoutData>, id: nat)
    ensures CountId(s, id) == 0 <==> WithoutId(s, id) == s
    ensures CountId(s, id) == 0 <==> forall t :: t in s ==> t.id != id
  {
    if s != [] {
      CountIdConcat([s[0]], s[1..], id);
      assert [s[0]] + s[1..] == s;
      NoneCounted(s[1..], id);
      WithoutIdHolds(s, id);
    }
  }

  lemma {:induction false} WithoutIdConcat(a: seq<TimeoutData>, b: seq<TimeoutData>, id: nat)
    ensures WithoutId(a + b, id) == WithoutId(a, id) + WithoutId(b, id)
  {
    if a == [] {
      assert a + b == b;
    } else {
      assert (a + b)[1..] == a[1..] + b;
      WithoutIdConcat(a[1..], b, id);
    }
  }

  lemma OnlyOneRemoved(s: seq<TimeoutData>, at: nat, id: nat)
    requires at < |s| && s[at].id == id && CountId(s, id) == 1
    ensures WithoutId(s, id) == s[..at] + s[at + 1..]
  {
    var a, b := s[..at], s[at + 1..];
    assert s == a + ([s[at]] + b);
    CountIdConcat(a, [s[at]] + b, id);
    CountIdConcat([s[at]], b, id);
    assert CountId([s[at]], id) == 1;
    NoneCounted(a, id);
    NoneCounted(b, id);
    WithoutIdConcat(a, [s[at]] + b, id);
    assert WithoutId([s[at]] + b, id) == b by {
      assert ([s[at]] + b)[1..] == b;
    }
  }

  /** No id is stored twice. */
  ghost predicate DistinctIds(s: seq<TimeoutData>) {
    forall id :: CountId(s, id) <= 1
  }

  lemma {:induction false} CountIdWithout(s: seq<TimeoutData>, sagaId: Guid, id: nat)
    ensures CountId(Without(s, sagaId), id) <= CountId(s, id)
  {
    if s != [] {
      CountIdConcat([s[0]], s[1..], id);
      assert [s[0]] + s[1..] == s;
      CountIdWithout(s[1..], sagaId, id);
      CountIdConcat([s[0]], Without(s[1..], sagaId), id);
    }
  }

  lemma {:induction false} CountIdWithoutId(s: seq<TimeoutData>, gone: nat, id: nat)
    ensures CountId(WithoutId(s, gone), id) <= CountId(s, id)
  {
    if s != [] {
      CountIdConcat([s[0]], s[1..], id);
      assert [s[0]] + s[1..] == s;
      CountIdWithoutId(s[1..], gone, id);
      CountIdConcat([s[0]], WithoutId(s[1..], gone), id);
    }
  }

  /** A header of an incoming message and what parsing it gives. */
  datatype Header<T> = Missing | Malformed | Present(value: T)

  datatype TimeoutMessage = TimeoutMessage(sagaId: Header<Guid>, clearTimeouts: bool, expire: Header<Time>,
                                           body: string)

  datatype Outcome = ClearedSaga(sagaId: Guid) | Stored(timeout: TimeoutData) | Thrown(reason: Reason)

  datatype Reason = MalformedSagaId | ClearWithoutSaga | NotATimeout | MalformedExpiry

  function Decision(message: TimeoutMessage, newId: nat): Outcome {
    if message.sagaId.Malformed? then Thrown(MalformedSagaId)
    else
      var sagaId := if message.sagaId.Present? then message.sagaId.value else EMPTY_GUID;
      if message.clearTimeouts then
        if sagaId == EMPTY_GUID then Thrown(ClearWithoutSaga) else ClearedSaga(sagaId)
      else
        match message.expire
        case Missing => Thrown(NotATimeout)
        case Malformed => Thrown(MalformedExpiry)
        case Present(time) => Stored(TimeoutData(newId, sagaId, time, message.body))
  }

  /** What each outcome says about the message. */
  predicate DecidedBy(message: TimeoutMessage, newId: nat, outcome: Outcome) {
    match outcome
    case ClearedSaga(sagaId) => message.clearTimeouts && message.sagaId == Present(sagaId) && sagaId != EMPTY_GUID
    case Stored(t) =>
      && !message.clearTimeouts && message.expire == Present(t.time)
      && (message.sagaId == Present(t.sagaId) || (message.sagaId.Missing? && t.sagaId == EMPTY_GUID))
      && t.body == message.body && t.id == newId
    case Thrown(MalformedSagaId) => message.sagaId.Malformed?
    case Thrown(ClearWithoutSaga) =>
      message.clearTimeouts && (message.sagaId.Missing? || message.sagaId == Present(EMPTY_GUID))
    case Thrown(NotATimeout) => !message.clearTimeouts && !message.sagaId.Malformed? && message.expire.Missing?
    case Thrown(MalformedExpiry) => !message.clearTimeouts && !message.sagaId.Malformed? && message.expire.Malformed?
  }

  /** The decision is right, and no other would be. */
  lemma DecisionExactly(message: TimeoutMessage, newId: nat, outcome: Outcome)
    ensures Decision(message, newId) == outcome <==> DecidedBy(message, newId, outcome)
  {
  }

  class TimeoutTransportMessageHandler {
    const persister: InMemoryTimeoutPersistence
    const manager: DefaultTimeoutManager

    constructor (persister: InMemoryTimeoutPersistence, manager: DefaultTimeoutManager)
      ensures this.persister == persister && this.manager == manager
    {
      this.persister, this.manager := persister, manager;
    }

    /** Store first, then table; a message that is rejected changes neither. */
    method Handle(message: TimeoutMessage, newId: nat) returns (outcome: Outcome)
      requires manager.Valid()
      modifies persister, manager`data
      ensures manager.Valid()
      ensures outcome == Decision(message, newId) && DecidedBy(message, newId, outcome)
      ensures match outcome
              case Thrown(_) => persister.storage == old(persister.storage) && manager.data == old(manager.data)
              case ClearedSaga(sagaId) =>
                && persister.storage == Without(old(persister.storage), sagaId)
                && manager.data == Cleared(old(manager.data), sagaId)
              case Stored(timeout) =>
                && persister.storage == old(persister.storage) + [timeout]
                && manager.data == Pushed(old(manager.data), timeout)
    {
      var sagaId := EMPTY_GUID;
      match message.sagaId {
        case Missing =>
        case Malformed => return Thrown(MalformedSagaId);
        case Present(id) => sagaId := id;
      }
      if message.clearTimeouts {
        if sagaId == EMPTY_GUID {
          return Thrown(ClearWithoutSaga);
        }
        persister.ClearTimeoutsFor(sagaId);
        manager.ClearTimeout(sagaId);
        return ClearedSaga(sagaId);
      }
      match message.expire {
        case Missing => return Thrown(NotATimeout);
        case Malformed => return Thrown(MalformedExpiry);
        case Present(time) =>
          var added := persister.Add(TimeoutData(0, sagaId, time, message.body), newId);
          manager.PushTimeout(added);
          return Stored(added);
      }
    }
  }

  /** Start-up: a fresh manager is primed with everything in the store. */
  method CacheExistingTimeouts(persister: InMemoryTimeoutPersistence, manager: DefaultTimeoutManager)
    requires manager.Valid()
    modifies manager`data
    ensures manager.Valid()
    ensures manager.data == PushAll(old(manager.data), persister.storage)
  {
    var existing := persister.storage;
    for i := 0 to |existing|
      invariant manager.Valid()
      invariant manager.data == PushAll(old(manager.data), existing[..i])
    {
      manager.PushTimeout(existing[i]);
      assert existing[..i + 1][..i] == existing[..i];
    }
    assert existing[..|existing|] == existing;
  }

  // ---- Runs of the whole service ----

  /** `requests` are dispatch messages sent and not yet handled; `known`, `attempted`
      and `lost` record the history. */
  datatype Service = Service(
    store: seq<TimeoutData>, table: Table, inFlight: seq<TimeoutData>, requests: set<TimeoutData>,
    known: set<TimeoutData>, attempted: set<TimeoutData>, lost: set<TimeoutData>)

  /** Take: the poller takes the earliest bucket. Attempt: it dispatches the next
      timeout it holds, which may fail. Confirm: the dispatch message is handled and
      its timeout removed from the store. Reject: it fails for good, as the timeout is no
      longer stored. */
  datatype Step =
    | Add(t: TimeoutData)
    | Clear(sagaId: Guid)
    | Take
    | Attempt(succeeds: bool)
    | Confirm(t: TimeoutData)
    | Reject(t: TimeoutData)

  const EMPTY_SERVICE := Service([], map[], [], {}, {}, {}, {})

  ghost predicate Enabled(s: Service, step: Step) {
    match step
    case Add(t) => forall u :: u in s.known ==> u.id != t.id
    case Clear(_) => true
    case Take => s.inFlight == [] && s.table != map[]
    case Attempt(_) => s.inFlight != []
    case Confirm(t) => t in s.requests && t in s.store
    case Reject(t) => t in s.requests && t !in s.store
  }

  function AddToStore(s: Service, t: TimeoutData): Service { s.(store := s.store + [t], known := s.known + {t}) }

  function PushToTable(s: Service, t: TimeoutData): Service { s.(table := Pushed(s.table, t)) }

  function ClearStore(s: Service, sagaId: Guid): Service { s.(store := Without(s.store, sagaId)) }

  function ClearTable(s: Service, sagaId: Guid): Service { s.(table := Cleared(s.table, sagaId)) }

  ghost function Next(s: Service, step: Step): Service
    requires Enabled(s, step)
  {
    match step
    case Add(t) => PushToTable(AddToStore(s, t), t)
    case Clear(sagaId) => ClearTable(ClearStore(s, sagaId), sagaId)
    case Take =>
      var k := MinKey(s.table);
      var r := s.(table := s.table - {k});
      if k == MIN_VALUE then r.(lost := s.lost + set t | t in s.table[k]) else r.(inFlight := s.table[k])
    case Attempt(succeeds) =>
      var t := s.inFlight[0];
      var r := s.(inFlight := s.inFlight[1..], attempted := s.attempted + {t});
      if succeeds then r.(requests := s.requests + {t}) else r
    case Confirm(t) => s.(store := WithoutId(s.store, t.id), requests := s.requests - {t})
    case Reject(t) => s.(requests := s.requests - {t})
  }

  ghost function Execute(s: Service, steps: seq<Step>): seq<Service>
    decreases |steps|
  {
    if steps == [] then [s]
    else if Enabled(s, steps[0]) then Execute(Next(s, steps[0]), steps[1..])
    else []
  }

  /** The endpoint stops and starts again: the table is rebuilt from the store, a
      bucket in the poller's hands is gone, dispatch messages stay in their queue. */
  function Restarted(s: Service): Service {
    s.(table := PushAll(map[], s.store), inFlight := [])
  }

  /** What the two copies promise each other. */
  ghost predicate Agree(s: Service) {
    && (forall t :: t in Flatten(s.table) ==> t in s.store)
    && (forall t :: t in s.store ==> t in Flatten(s.table) || t in s.inFlight || t in s.attempted || t in s.lost)
    && (forall t :: t in s.lost ==> t.time == MIN_VALUE)
  }

  /** Agreement together with what makes it last: a timeout that has left the table
      for dispatch is not also waiting in it. */
  ghost predicate Lasting(s: Service) {
    && WellFormed(s.table)
    && (forall t :: Pending(s.table, t) ==> t in s.store && t !in s.inFlight && t !in s.requests)
    && (forall t :: t in s.store ==> Pending(s.table, t) || t in s.inFlight || t in s.attempted || t in s.lost)
    && (forall t :: t in s.lost ==> t.time == MIN_VALUE)
    && (forall t :: t in s.store || t in s.inFlight || t in s.requests ==> t in s.known)
    && s.attempted <= s.known && s.lost <= s.known
    && DistinctIds(s.store)
    && (forall t, u :: t in s.known && u in s.known && t.id == u.id ==> t == u)
  }

  lemma LastingAgrees(s: Service)
    requires Lasting(s)
    ensures Agree(s)
  {
    FlattenHolds(s.table);
  }

  lemma AddedDistinct(s: seq<TimeoutData>, t: TimeoutData)
    requires DistinctIds(s) && forall u :: u in s ==> u.id != t.id
    ensures DistinctIds(s + [t])
  {
    NoneCounted(s, t.id);
    forall id
      ensures CountId(s + [t], id) <= 1
    {
      assert (s + [t])[..|s|] == s;
    }
  }

  lemma ClearedDistinct(s: seq<TimeoutData>, sagaId: Guid)
    requires DistinctIds(s)
    ensures DistinctIds(Without(s, sagaId))
  {
    forall id
      ensures CountId(Without(s, sagaId), id) <= 1
    {
      CountIdWithout(s, sagaId, id);
    }
  }

  lemma RemovedDistinct(s: seq<TimeoutData>, gone: nat)
    requires DistinctIds(s)
    ensures DistinctIds(WithoutId(s, gone))
  {
    forall id
      ensures CountId(WithoutId(s, gone), id) <= 1
    {
      CountIdWithoutId(s, gone, id);
    }
  }

  lemma LastingAdd(s: Service, t: TimeoutData)
    requires Lasting(s) && Enabled(s, Add(t))
    ensures Lasting(Next(s, Add(t)))
  {
    PushedWellFormed(s.table, t);
    AddedDistinct(s.store, t);
    forall u
      ensures Pending(Pushed(s.table, t), u) <==> Pending(s.table, u) || u == t
    {
    }
  }

  lemma PendingAfterClear(m: Table, sagaId: Guid)
    ensures forall u :: Pending(Cleared(m, sagaId), u) <==> Pending(m, u) && u.sagaId != sagaId
  {
    forall u
      ensures Pending(Cleared(m, sagaId), u) <==> Pending(m, u) && u.sagaId != sagaId
    {
      if u.time in m {
        WithoutHolds(m[u.time], sagaId);
      }
    }
  }

  lemma LastingClear(s: Service, sagaId: Guid)
    requires Lasting(s)
    ensures Lasting(Next(s, Clear(sagaId)))
  {
    ClearedWellFormed(s.table, sagaId);
    WithoutHolds(s.store, sagaId);
    ClearedDistinct(s.store, sagaId);
    PendingAfterClear(s.table, sagaId);
  }

  lemma LastingTake(s: Service)
    requires Lasting(s) && Enabled(s, Take)
    ensures Lasting(Next(s, Take))
  {
    var k := MinKey(s.table);
    forall u
      ensures Pending(s.table, u) <==> Pending(s.table - {k}, u) || u in s.table[k]
    {
    }
  }

  lemma LastingConfirm(s: Service, t: TimeoutData)
    requires Lasting(s) && Enabled(s, Confirm(t))
    ensures Lasting(Next(s, Confirm(t)))
  {
    WithoutIdHolds(s.store, t.id);
    RemovedDistinct(s.store, t.id);
  }

  lemma LastingStep(s: Service, step: Step)
    requires Lasting(s) && Enabled(s, step)
    ensures Lasting(Next(s, step))
  {
    match step
    case Add(t) => LastingAdd(s, t);
    case Clear(sagaId) => LastingClear(s, sagaId);
    case Take => LastingTake(s);
    case Attempt(_) => assert s.inFlight == [s.inFlight[0]] + s.inFlight[1..];
    case Confirm(t) => LastingConfirm(s, t);
    case Reject(t) =>
  }

  lemma {:induction false} LastingFrom(s: Service, steps: seq<Step>)
    requires Lasting(s)
    ensures forall r :: r in Execute(s, steps) ==> Lasting(r)
    decreases |steps|
  {
    if steps != [] && Enabled(s, steps[0]) {
      LastingStep(s, steps[0]);
      LastingFrom(Next(s, steps[0]), steps[1..]);
    }
  }

  /** Over every run of timeout messages, clears, polls and confirmed dispatches the
      table holds only persisted timeouts and every persisted timeout is accounted for. */
  lemma StoreAndTableAgree(steps: seq<Step>)
    ensures forall r :: r in Execute(EMPTY_SERVICE, steps) ==> Agree(r)
  {
    LastingFrom(EMPTY_SERVICE, steps);
    forall r | r in Execute(EMPTY_SERVICE, steps)
      ensures Agree(r)
    {
      LastingAgrees(r);
    }
  }

  /** Replaying the store makes every persisted timeout pending again, and nothing else. */
  lemma ReplayLosesNothing(s: Service)
    ensures WellFormed(Restarted(s).table)
    ensures Flatten(Restarted(s).table) == StableSort(s.store)
    ensures forall t :: t in Flatten(Restarted(s).table) <==> t in s.store
  {
    QueueIsStableSort(s.store);
    StableSortHolds(s.store);
    forall t
      ensures t in StableSort(s.store) <==> t in s.store
    {
      assert t in multiset(StableSort(s.store)) <==> t in multiset(s.store);
    }
  }

  ghost predicate AgreesForEver(s: Service) {
    forall steps, r :: r in Execute(s, steps) ==> Agree(r)
  }

  lemma RestartedLasting(s: Service)
    requires Lasting(s)
    ensures Lasting(Restarted(s)) <==> forall t :: t in s.requests ==> t !in s.store
  {
    ReplayLosesNothing(s);
    FlattenHolds(Restarted(s).table);
    forall t
      ensures Pending(Restarted(s).table, t) <==> t in s.store
    {
      assert t in Flatten(Restarted(s).table) <==> t in s.store;
    }
  }

  lemma PendingRequestBreaksAgreement(s: Service, t: TimeoutData)
    requires Lasting(s) && t in s.requests && t in s.store
    ensures !AgreesForEver(Restarted(s))
  {
    var z := Restarted(s);
    var r := Next(z, Confirm(t));
    ReplayLosesNothing(s);
    WithoutIdHolds(z.store, t.id);
    assert !Agree(r) by {
      assert t in Flatten(z.table) && r.table == z.table && t !in r.store;
    }
    assert Execute(z, [Confirm(t)]) == [r] by {
      assert [Confirm(t)][1..] == [];
    }
    assert r in Execute(z, [Confirm(t)]);
  }

  /** After a restart the two copies stay in agreement, whatever comes next, exactly
      when no dispatch message for a still persisted timeout was on its way: such a
      timeout is dispatched again, although its first dispatch removes it from the store. */
  lemma RestartAgreesExactlyWhenNoRequestPending(s: Service)
    requires Lasting(s)
    ensures AgreesForEver(Restarted(s)) <==> forall t :: t in s.requests ==> t !in s.store
  {
    if t :| t in s.requests && t in s.store {
      PendingRequestBreaksAgreement(s, t);
    } else {
      RestartedLasting(s);
      forall steps, r | r in Execute(Restarted(s), steps)
        ensures Agree(r)
      {
        LastingFrom(Restarted(s), steps);
        LastingAgrees(r);
      }
    }
  }

  /** Such a service is reached: a timeout is stored, taken and dispatched, and its dispatch
      message is still on its way. */
  lemma RequestPending(t: TimeoutData)
    requires t.time > MIN_VALUE
    ensures exists r :: r in Execute(EMPTY_SERVICE, [Add(t), Take, Attempt(true)]) &&
                        Lasting(r) && t in r.requests && t in r.store && !AgreesForEver(Restarted(r))
  {
    var a := Next(EMPTY_SERVICE, Add(t));
    PushedNew(map[], t);
    assert a.table == map[t.time := [t]] && MinKey(a.table) == t.time;
    var b := Next(a, Take);
    assert b.inFlight == [t];
    var r := Next(b, Attempt(true));
    var steps := [Add(t), Take, Attempt(true)];
    assert steps[1..] == [Take, Attempt(true)] && steps[1..][1..] == [Attempt(true)] && steps[1..][1..][1..] == [];
    assert Execute(b, [Attempt(true)]) == [r];
    assert Execute(a, [Take, Attempt(true)]) == [r];
    assert r in Execute(EMPTY_SERVICE, steps);
    LastingFrom(EMPTY_SERVICE, steps);
    PendingRequestBreaksAgreement(r, t);
  }

  // ---- The objects follow the runs ----

  function Attempts(bucket: seq<TimeoutData>, fails: TimeoutData -> bool): seq<Step> {
    if bucket == [] then [] else [Attempt(!fails(bucket[0]))] + Attempts(bucket[1..], fails)
  }

  /** The steps of one call of PopTimeout. */
  ghost function PollSteps(m: Table, now: Time, duration: nat, fails: TimeoutData -> bool): seq<Step> {
    var due := DueKey(m, now, duration);
    if due == [] then [] else [Take] + if due[0] == MIN_VALUE then [] else Attempts(m[due[0]], fails)
  }

  /** The timeouts at DateTime.MinValue that are in one table and not in the other. */
  function Vanished(m: Table, after: Table): set<TimeoutData> {
    if MIN_VALUE in m && MIN_VALUE !in after then Elements(m[MIN_VALUE]) else {}
  }

  lemma SleptVanished(m: Table, now: Time, duration: nat, fails: TimeoutData -> bool)
    ensures Popped(m, now, duration, fails).Slept? ==>
              var due := DueKey(m, now, duration);
              Vanished(m, m - (set k | k in due)) == if due != [] then Elements(m[MIN_VALUE]) else {}
  {
  }

  function Elements(bucket: seq<TimeoutData>): set<TimeoutData> {
    set t | t in bucket
  }

  /** Those whose dispatch does not fail: a dispatch message is sent for each. */
  function Succeeding(bucket: seq<TimeoutData>, fails: TimeoutData -> bool): set<TimeoutData> {
    set t | t in bucket && !fails(t)
  }

  lemma {:induction false} BucketAttempted(s: Service, fails: TimeoutData -> bool) returns (r: Service)
    ensures Execute(s, Attempts(s.inFlight, fails)) == [r]
    ensures r == s.(inFlight := [], attempted := s.attempted + Elements(s.inFlight),
                    requests := s.requests + Succeeding(s.inFlight, fails))
    decreases |s.inFlight|
  {
    if s.inFlight == [] {
      r := s;
    } else {
      var step := Attempt(!fails(s.inFlight[0]));
      r := BucketAttempted(Next(s, step), fails);
      assert Attempts(s.inFlight, fails)[1..] == Attempts(s.inFlight[1..], fails);
      OneMoreTried(s.inFlight, fails);
    }
  }

  lemma OneMoreTried(bucket: seq<TimeoutData>, fails: TimeoutData -> bool)
    requires bucket != []
    ensures Elements(bucket) == {bucket[0]} + Elements(bucket[1..])
    ensures Succeeding(bucket, fails) == (if fails(bucket[0]) then {} else {bucket[0]}) + Succeeding(bucket[1..], fails)
  {
    assert bucket == [bucket[0]] + bucket[1..];
  }

  lemma BucketPolled(s: Service, now: Time, duration: nat, fails: TimeoutData -> bool) returns (r: Service)
    requires s.inFlight == []
    ensures Execute(s, PollSteps(s.table, now, duration, fails)) == [r]
    ensures r.inFlight == [] && r.store == s.store && r.known == s.known
    ensures r.table == s.table - (set k | k in DueKey(s.table, now, duration))
    ensures var popped := Popped(s.table, now, duration, fails);
            var tried := if popped.Dispatched? then popped.attempted else [];
            r.attempted == s.attempted + Elements(tried) && r.requests == s.requests + Succeeding(tried, fails) &&
            var vanished := popped.Slept? && DueKey(s.table, now, duration) != [];
            r.lost == s.lost + if vanished then Elements(s.table[MIN_VALUE]) else {}
  {
    var due := DueKey(s.table, now, duration);
    if due == [] {
      r := s;
    } else {
      var taken := Next(s, Take);
      var steps := PollSteps(s.table, now, duration, fails);
      assert steps[1..] == if due[0] == MIN_VALUE then [] else Attempts(s.table[due[0]], fails);
      r := BucketAttempted(taken, fails);
    }
    assert (set k | k in due) == if due == [] then {} else {due[0]};
  }

  /** The persister, the manager, the handler of timeout messages, the poller and the handler of
      dispatch messages, with at most one of them at work. `service` is the run they make. */
  class TimeoutService {
    const persister: InMemoryTimeoutPersistence
    const manager: DefaultTimeoutManager
    const handler: TimeoutTransportMessageHandler
    ghost var service: Service

    ghost predicate Valid()
      reads this, persister, manager
    {
      && handler.persister == persister && handler.manager == manager && manager.Valid()
      && persister.storage == service.store && manager.data == service.table
      && service.inFlight == [] && Lasting(service)
    }

    /** Starts on what is stored; `before` is the service as it was when it stopped. */
    constructor (persister: InMemoryTimeoutPersistence, ghost before: Service)
      requires Lasting(before) && before.store == persister.storage
      ensures service == Restarted(before) && this.persister == persister && fresh(manager)
      ensures Valid() <==> forall t :: t in before.requests ==> t !in before.store
    {
      var primed := new DefaultTimeoutManager();
      CacheExistingTimeouts(persister, primed);
      RestartedLasting(before);
      this.persister, this.manager := persister, primed;
      handler := new TimeoutTransportMessageHandler(persister, primed);
      service := Restarted(before);
    }

    method Handle(message: TimeoutMessage, newId: nat) returns (outcome: Outcome)
      requires Valid() && forall t :: t in service.known ==> t.id != newId
      modifies this, persister, manager`data
      ensures Valid() && outcome == Decision(message, newId) && DecidedBy(message, newId, outcome)
      ensures match outcome
              case Thrown(_) => service == old(service)
              case ClearedSaga(sagaId) => service == Next(old(service), Clear(sagaId))
              case Stored(t) => Enabled(old(service), Add(t)) && service == Next(old(service), Add(t))
    {
      outcome := handler.Handle(message, newId);
      match outcome {
        case Thrown(_) =>
        case ClearedSaga(sagaId) =>
          LastingStep(service, Clear(sagaId));
          service := Next(service, Clear(sagaId));
        case Stored(t) =>
          LastingStep(service, Add(t));
          service := Next(service, Add(t));
      }
    }

    /** One turn of the polling loop. */
    method Poll(now: Time, fails: TimeoutData -> bool) returns (outcome: PopOutcome)
      requires Valid()
      modifies this, manager`data
      ensures Valid()
      ensures Execute(old(service), PollSteps(old(service).table, now, manager.duration, fails)) == [service]
      ensures outcome == Popped(old(service).table, now, manager.duration, fails)
      ensures PopMeans(old(manager.data), manager.data, now, manager.duration, fails, outcome)
      ensures var tried := if outcome.Dispatched? then outcome.attempted else [];
              service == old(service).(
                table := manager.data, attempted := old(service).attempted + Elements(tried),
                requests := old(service).requests + Succeeding(tried, fails),
                lost := old(service).lost + if outcome.Slept? then Vanished(old(manager.data), manager.data) else {})
    {
      outcome := manager.PopTimeout(now, fails);
      SleptVanished(service.table, now, manager.duration, fails);
      ghost var steps := PollSteps(service.table, now, manager.duration, fails);
      LastingFrom(service, steps);
      service := BucketPolled(service, now, manager.duration, fails);
    }

    /** A dispatch message: it is sent on and its timeout removed. If it is not stored any more
        that throws, and handling the message is rolled back. */
    method HandleDispatch(t: TimeoutData) returns (ok: bool)
      requires Valid() && t in service.requests
      modifies this, persister
      ensures Valid()
      ensures ok <==> t in old(persister.storage)
      ensures service == if ok then Next(old(service), Confirm(t)) else old(service)
      ensures ok ==> service.requests == old(service).requests - {t}
      ensures ok ==> forall u :: u in persister.storage <==> u in old(persister.storage) && u != t
    {
      StoredOnce(service, t);
      ok := persister.Remove(t.id);
      if ok {
        LastingStep(service, Confirm(t));
        WithoutIdHolds(service.store, t.id);
        service := Next(service, Confirm(t));
      }
    }

    /** So the objects agree after every call. */
    lemma ObjectsAgree()
      requires Valid()
      ensures forall t :: t in Flatten(manager.data) ==> t in persister.storage
      ensures forall t :: t in persister.storage ==>
                t in Flatten(manager.data) || t in service.attempted || t in service.lost
    {
      LastingAgrees(service);
    }
  }

  lemma StoredOnce(s: Service, t: TimeoutData)
    requires Lasting(s) && t in s.requests
    ensures CountId(s.store, t.id) == 1 <==> t in s.store
  {
    NoneCounted(s.store, t.id);
    assert forall u :: u in s.store && u.id == t.id ==> u == t;
  }
}
